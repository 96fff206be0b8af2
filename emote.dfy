/**
 * The emote catalog: nine variants in declaration order, each with a
 * lowercase trigger word, and the immutable trigger-to-variant map that is
 * built from them once.
 */
module Emotes {
  import opened Wrappers
  import opened JavaText

  datatype Emote =
    | Prayge | Gz | Pog | Vvega | WidePeepoHappy | X0Tab | X0r6ztGiggle | Kekw | WideHard

  /** `Emote.values()`: every variant, in declaration order. */
  const Values: seq<Emote> :=
    [Prayge, Gz, Pog, Vvega, WidePeepoHappy, X0Tab, X0r6ztGiggle, Kekw, WideHard]

  /** `ordinal()`: the position of the variant in the declaration. */
  function Ordinal(e: Emote): (n: nat)
    ensures n < |Values| && Values[n] == e
  {
    match e
    case Prayge => 0
    case Gz => 1
    case Pog => 2
    case Vvega => 3
    case WidePeepoHappy => 4
    case X0Tab => 5
    case X0r6ztGiggle => 6
    case Kekw => 7
    case WideHard => 8
  }

  /** `name()`: the constant's declared name. */
  function Name(e: Emote): string
  {
    match e
    case Prayge => "PRAYGE"
    case Gz => "GZ"
    case Pog => "POG"
    case Vvega => "VVEGA"
    case WidePeepoHappy => "WIDEPEEPOHAPPY"
    case X0Tab => "X0TAB"
    case X0r6ztGiggle => "X0R6ZTGIGGLE"
    case Kekw => "KEKW"
    case WideHard => "WIDEHARD"
  }

  /** The word that a chat message must contain for the emote to be shown. */
  function Trigger(e: Emote): string
  {
    match e
    case Prayge => "prayge"
    case Gz => "gz"
    case Pog => "pog"
    case Vvega => "vvega"
    case WidePeepoHappy => "widepeepohappy"
    case X0Tab => "x0tab"
    case X0r6ztGiggle => "x0r6ztgiggle"
    case Kekw => "kekw"
    case WideHard => "widehard"
  }

  /** The image resource `loadImage` asks for: the lowercased name with `.png`. */
  function ResourceName(e: Emote): string
  {
    ToLower(Name(e)) + ".png"
  }

  lemma OrdinalsArePositions()
    ensures |Values| == 9
    ensures forall i :: 0 <= i < |Values| ==> Ordinal(Values[i]) == i
    ensures forall a, b :: Ordinal(a) == Ordinal(b) ==> a == b
  {
  }

  lemma TriggersDistinct()
    ensures forall a, b :: Trigger(a) == Trigger(b) ==> a == b
  {
    forall a, b | Trigger(a) == Trigger(b) ensures a == b {
      match a
      case Prayge => assert Trigger(a)[0] == 'p' && |Trigger(a)| == 6;
      case Gz => assert |Trigger(a)| == 2;
      case Pog => assert Trigger(a)[0] == 'p' && |Trigger(a)| == 3;
      case Vvega => assert Trigger(a)[0] == 'v';
      case WidePeepoHappy => assert |Trigger(a)| == 14;
      case X0Tab => assert Trigger(a)[0] == 'x' && |Trigger(a)| == 5;
      case X0r6ztGiggle => assert |Trigger(a)| == 12;
      case Kekw => assert Trigger(a)[0] == 'k';
      case WideHard => assert |Trigger(a)| == 8;
    }
  }

  /** Every trigger is made of lowercase ASCII letters and digits. */
  lemma TriggersLowercase()
    ensures forall e :: IsLowerCase(Trigger(e))
    ensures forall e, i :: 0 <= i < |Trigger(e)| ==> IsAlphaNumChar(Trigger(e)[i])
  {
    forall e ensures IsLowerCase(Trigger(e)) && forall i :: 0 <= i < |Trigger(e)| ==> IsAlphaNumChar(Trigger(e)[i]) {
      TriggerCharsOf(e);
    }
  }

  lemma TriggerCharsOf(e: Emote)
    ensures forall i :: 0 <= i < |Trigger(e)| ==> 'a' <= Trigger(e)[i] <= 'z' || '0' <= Trigger(e)[i] <= '9'
  {
    match e
    case Prayge =>
    case Gz =>
    case Pog =>
    case Vvega =>
    case WidePeepoHappy =>
    case X0Tab =>
    case X0r6ztGiggle =>
    case Kekw =>
    case WideHard =>
  }

  /** No trigger occurs inside a longer trigger. */
  lemma TriggerNotInside(e: Emote, f: Emote, k: nat)
    requires |Trigger(e)| < |Trigger(f)| && k + |Trigger(e)| <= |Trigger(f)|
    ensures Trigger(f)[k..k + |Trigger(e)|] != Trigger(e)
  {
    var s, t := Trigger(e), Trigger(f);
    // Mostly the first two letters already differ; "po" occurs in "widepeepohappy",
    // "wide" begins it and "x0" begins "x0r6ztgiggle", so those need one more letter.
    match e
    case Prayge => assert (t[k], t[k + 1]) != (s[0], s[1]);
    case Gz => assert (t[k], t[k + 1]) != (s[0], s[1]);
    case Pog => assert (t[k], t[k + 1], t[k + 2]) != (s[0], s[1], s[2]);
    case Vvega => assert (t[k], t[k + 1]) != (s[0], s[1]);
    case WidePeepoHappy => assert false;
    case X0Tab => assert (t[k], t[k + 1], t[k + 2]) != (s[0], s[1], s[2]);
    case X0r6ztGiggle => assert (t[k], t[k + 1]) != (s[0], s[1]);
    case Kekw => assert (t[k], t[k + 1]) != (s[0], s[1]);
    case WideHard => assert (t[k], t[k + 1], t[k + 4]) != (s[0], s[1], s[4]);
  }

  /** A variant's resource name is its trigger followed by `.png`. */
  lemma ResourceNameIsTriggerPng(e: Emote)
    ensures ResourceName(e) == Trigger(e) + ".png"
  {
    var n := Name(e);
    assert ToLower(n) == Trigger(e) by {
      forall i | 0 <= i < |n| ensures ToLower(n)[i] == Trigger(e)[i] {
        assert LowerChar(n[i]) == Trigger(e)[i];
      }
    }
  }

  lemma ResourceNamesDistinct()
    ensures forall a, b :: ResourceName(a) == ResourceName(b) ==> a == b
  {
    forall a, b | ResourceName(a) == ResourceName(b) ensures a == b {
      ResourceNameIsTriggerPng(a);
      ResourceNameIsTriggerPng(b);
      var ta, tb := Trigger(a), Trigger(b);
      assert |ta| == |tb|;
      assert ta == ResourceName(a)[..|ta|];
      TriggersDistinct();
    }
  }

  /** No two entries share a key. */
  predicate KeysDistinct<K(==), V>(entries: seq<(K, V)>)
  {
    forall i, j :: 0 <= i < j < |entries| ==> entries[i].0 != entries[j].0
  }

  /**
   * `ImmutableMap.Builder`: put each entry in order, then `build`, which
   * fails (None here) when a key was put twice.
   */
  function BuildMap<K(==), V>(entries: seq<(K, V)>): (r: Option<map<K, V>>)
    ensures r.Some? <==> KeysDistinct(entries)
    ensures r.Some? ==> r.value.Keys == set i | 0 <= i < |entries| :: entries[i].0
    ensures r.Some? ==> forall i :: 0 <= i < |entries| ==> r.value[entries[i].0] == entries[i].1
  {
    if entries == [] then Some(map[])
    else
      var rest := BuildMap(entries[1..]);
      if rest.None? then None
      else if entries[0].0 in rest.value then None
      else Some(rest.value[entries[0].0 := entries[0].1])
  }

  /** The entries put into the builder: each variant keyed by its trigger, in declaration order. */
  function Entries(): (es: seq<(string, Emote)>)
    ensures |es| == |Values|
    ensures forall e :: es[Ordinal(e)] == (Trigger(e), e)
  {
    seq(|Values|, i requires 0 <= i < |Values| => (Trigger(Values[i]), Values[i]))
  }

  /**
   * `emojiMap`, the map the static initializer builds, written out;
   * `StaticInitBuildsEmojiMap` proves that building it from `Entries()`
   * succeeds and gives exactly this map.
   */
  const EmojiMap: map<string, Emote> := map[
    "prayge" := Prayge, "gz" := Gz, "pog" := Pog, "vvega" := Vvega,
    "widepeepohappy" := WidePeepoHappy, "x0tab" := X0Tab, "x0r6ztgiggle" := X0r6ztGiggle,
    "kekw" := Kekw, "widehard" := WideHard]

  /** The keys of `emojiMap` are exactly the triggers, and each maps to its own variant. */
  lemma EmojiMapContents()
    ensures forall e :: Trigger(e) in EmojiMap && EmojiMap[Trigger(e)] == e
    ensures forall k :: k in EmojiMap ==> exists e :: Trigger(e) == k
  {
    forall k | k in EmojiMap ensures exists e :: Trigger(e) == k {
      if k == "prayge" { assert Trigger(Prayge) == k; }
      else if k == "gz" { assert Trigger(Gz) == k; }
      else if k == "pog" { assert Trigger(Pog) == k; }
      else if k == "vvega" { assert Trigger(Vvega) == k; }
      else if k == "widepeepohappy" { assert Trigger(WidePeepoHappy) == k; }
      else if k == "x0tab" { assert Trigger(X0Tab) == k; }
      else if k == "x0r6ztgiggle" { assert Trigger(X0r6ztGiggle) == k; }
      else if k == "kekw" { assert Trigger(Kekw) == k; }
      else { assert Trigger(WideHard) == k; }
    }
  }

  /**
   * The static initializer does not throw: the triggers are distinct, so
   * `build` succeeds, and the map it yields is `EmojiMap`.
   */
  lemma StaticInitBuildsEmojiMap()
    ensures BuildMap(Entries()) == Some(EmojiMap)
  {
    EntriesDistinct();
    var m := BuildMap(Entries()).value;
    BuiltWithinEmojiMap();
    EmojiMapWithinBuilt();
    assert m == EmojiMap;
  }

  lemma BuiltWithinEmojiMap()
    ensures var r := BuildMap(Entries());
      r.Some? ==> forall k :: k in r.value ==> k in EmojiMap && r.value[k] == EmojiMap[k]
  {
    var es := Entries();
    var r := BuildMap(es);
    if r.Some? {
      var m := r.value;
      EmojiMapContents();
      forall k | k in m ensures k in EmojiMap && m[k] == EmojiMap[k] {
        var i :| 0 <= i < |es| && es[i].0 == k;
        assert k == Trigger(Values[i]) && m[k] == Values[i];
      }
    }
  }

  lemma EmojiMapWithinBuilt()
    ensures var r := BuildMap(Entries());
      r.Some? ==> forall k :: k in EmojiMap ==> k in r.value
  {
    var es := Entries();
    var r := BuildMap(es);
    if r.Some? {
      EmojiMapContents();
      forall k | k in EmojiMap ensures k in r.value {
        var e :| Trigger(e) == k;
        assert es[Ordinal(e)].0 == k;
      }
    }
  }

  lemma EntriesDistinct()
    ensures KeysDistinct(Entries())
  {
    var es := Entries();
    OrdinalsArePositions();
    TriggersDistinct();
    forall i, j | 0 <= i < j < |es| ensures es[i].0 != es[j].0 {
      assert es[i] == es[Ordinal(Values[i])] && es[j] == es[Ordinal(Values[j])];
    }
  }

  /** `getEmote`: the variant whose trigger is exactly `trigger`, or None. */
  function GetEmote(trigger: string): Option<Emote>
  {
    if trigger in EmojiMap then Some(EmojiMap[trigger]) else None
  }

  /** Lookup only ever answers with the variant that declares the word as its trigger. */
  lemma GetEmoteSound(word: string)
    ensures GetEmote(word).Some? ==> Trigger(GetEmote(word).value) == word
  {
    EmojiMapContents();
    TriggersDistinct();
    if word in EmojiMap {
      var e :| Trigger(e) == word;
    }
  }

  /** Lookup inverts the trigger table: every variant is found by its own trigger. */
  lemma GetEmoteOfTrigger(e: Emote)
    ensures GetEmote(Trigger(e)) == Some(e)
  {
    EmojiMapContents();
  }

  /** Lookup finds nothing exactly when no variant declares the word as its trigger. */
  lemma GetEmoteNone(word: string)
    ensures GetEmote(word).None? <==> forall e :: Trigger(e) != word
  {
    GetEmoteSound(word);
    if GetEmote(word).None? {
      forall e ensures Trigger(e) != word {
        GetEmoteOfTrigger(e);
      }
    }
  }

  /** Looking up a lowercased word matches a trigger regardless of the word's case. */
  lemma LookupIgnoresCase(word: string, e: Emote)
    ensures GetEmote(ToLower(word)) == Some(e) <==> ToLower(word) == ToLower(Trigger(e))
  {
    TriggersLowercase();
    if ToLower(word) == ToLower(Trigger(e)) {
      GetEmoteOfTrigger(e);
    }
  }
}

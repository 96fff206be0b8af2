/**
 * The plugin: it appends one icon slot per emote to the host client's
 * mod-icon table (once), and rewrites chat messages and overhead text so that
 * every word that is an emote trigger becomes an inline image tag for that
 * emote's slot.
 */
module Plugin {
  import opened Wrappers
  import opened JavaText
  import opened ChatMarkup
  import opened Emotes

  /** The host's palette-indexed bitmap for one icon, as an opaque handle: the plugin never looks inside it. */
  datatype IndexedSprite = IndexedSprite(id: nat)

  datatype GameState =
    | Unknown | Starting | LoginScreen | LoginScreenAuthenticator | LoggingIn
    | Loading | LoggedIn | ConnectionLost | Hopping

  /** The chat channels of the host; the ones after `ClanGuestChat` stand for every channel the plugin ignores. */
  datatype ChatMessageType =
    | PublicChat | ModChat | FriendsChat | PrivateChat | PrivateChatOut | ClanChat | ClanGuestChat
    | GameMessage | ModPrivateChat | Broadcast | Trade | Console

  datatype ChatMessage = ChatMessage(messageType: ChatMessageType, message: string)

  /** The kind of actor whose overhead text changed. */
  datatype ActorKind = Player | Npc

  /** The channels whose messages the chat handler rewrites. */
  predicate IsRewrittenType(t: ChatMessageType)
  {
    match t
    case PublicChat | ModChat | FriendsChat | PrivateChat | PrivateChatOut | ClanChat | ClanGuestChat => true
    case _ => false
  }

  /** A word that, lowercased, is some emote's trigger. */
  predicate IsEmoteWord(word: string)
  {
    GetEmote(ToLower(word)).Some?
  }

  /** What one word of a message becomes when icons start at slot `start`. */
  function RewriteWord(word: string, start: int): (r: string)
    ensures word != "" ==> r != ""
    ensures ' ' !in word ==> ' ' !in r
  {
    match GetEmote(ToLower(word))
    case Some(e) => ImgTagShape(start + Ordinal(e)); ImgTag(start + Ordinal(e))
    case None => word
  }

  /**
   * A word whose lowercase form is the trigger of `e` becomes the tag of
   * slot `start + ordinal(e)`; a word that matches no trigger is kept as it is.
   */
  lemma RewriteWordMeaning(word: string, start: int, e: Emote)
    ensures ToLower(word) == Trigger(e) ==> RewriteWord(word, start) == ImgTag(start + Ordinal(e))
    ensures (forall f :: ToLower(word) != Trigger(f)) ==> RewriteWord(word, start) == word
  {
    GetEmoteNone(ToLower(word));
    if ToLower(word) == Trigger(e) {
      GetEmoteOfTrigger(e);
    }
  }

  /**
   * Matching is by whole word: a trigger with anything attached before or
   * after it is not an emote word at all, since no trigger occurs inside a
   * longer one.
   */
  lemma EmbeddedTriggerNotMatched(before: string, after: string, e: Emote)
    requires before + after != ""
    ensures !IsEmoteWord(before + Trigger(e) + after)
  {
    var t, word := Trigger(e), before + Trigger(e) + after;
    var low := ToLower(word);
    if IsEmoteWord(word) {
      var f := GetEmote(low).value;
      GetEmoteSound(low);
      TriggerCharsOf(e);
      var k := |before|;
      assert low[k..k + |t|] == t by {
        forall j | 0 <= j < |t| ensures low[k + j] == t[j] {
          assert word[k + j] == t[j];
        }
      }
      TriggerNotInside(e, f, k);
      assert false;
    }
  }

  /** Every word of `words` rewritten, built up from the front as the loop of `updateMessage` does. */
  function RewriteWords(words: seq<string>, start: int): seq<string>
  {
    if words == [] then []
    else RewriteWords(words[..|words| - 1], start) + [RewriteWord(words[|words| - 1], start)]
  }

  /** Rewriting works word by word: the i-th output word is the i-th input word rewritten. */
  lemma {:induction false} RewriteWordsPointwise(words: seq<string>, start: int)
    ensures |RewriteWords(words, start)| == |words|
    ensures forall i :: 0 <= i < |words| ==> RewriteWords(words, start)[i] == RewriteWord(words[i], start)
  {
    if words != [] {
      RewriteWordsPointwise(words[..|words| - 1], start);
    }
  }

  /** Whether some word of `words` is an emote word, scanning from the front. */
  predicate AnyEmoteWord(words: seq<string>)
  {
    words != [] && (AnyEmoteWord(words[..|words| - 1]) || IsEmoteWord(words[|words| - 1]))
  }

  lemma {:induction false} AnyEmoteWordIff(words: seq<string>)
    ensures AnyEmoteWord(words) <==> exists i :: 0 <= i < |words| && IsEmoteWord(words[i])
  {
    if words != [] {
      var init := words[..|words| - 1];
      AnyEmoteWordIff(init);
      if exists i :: 0 <= i < |words| && IsEmoteWord(words[i]) {
        var i :| 0 <= i < |words| && IsEmoteWord(words[i]);
        if i < |init| {
          assert init[i] == words[i];
        }
      }
      if exists i :: 0 <= i < |init| && IsEmoteWord(init[i]) {
        var i :| 0 <= i < |init| && IsEmoteWord(init[i]);
        assert words[i] == init[i];
      }
    }
  }

  /**
   * The result of `updateMessage` when icons start at slot `start`: None when
   * no word of the split message is an emote word, otherwise the rewritten
   * words joined by single spaces.
   */
  function Rewritten(message: string, start: int): Option<string>
  {
    var words := Split(message, ' ');
    if exists i :: 0 <= i < |words| && IsEmoteWord(words[i])
    then Some(Join(RewriteWords(words, start), " "))
    else None
  }

  /** One step of the scan: extending the prefix by one word extends both scans by that word. */
  lemma ScanStep(words: seq<string>, i: nat, start: int)
    requires i < |words|
    ensures RewriteWords(words[..i + 1], start) == RewriteWords(words[..i], start) + [RewriteWord(words[i], start)]
    ensures AnyEmoteWord(words[..i + 1]) == (AnyEmoteWord(words[..i]) || IsEmoteWord(words[i]))
  {
    assert words[..i + 1][..i] == words[..i];
  }

  /** `Rewritten` computed the way `updateMessage` computes it: one scan over the split words. */
  lemma RewrittenByScan(message: string, start: int)
    ensures var words := Split(message, ' ');
      Rewritten(message, start) == if AnyEmoteWord(words) then Some(Join(RewriteWords(words, start), " ")) else None
  {
    AnyEmoteWordIff(Split(message, ' '));
  }

  /** A message of one word is rewritten exactly when that word is an emote word, into that word's tag. */
  lemma RewrittenOneWord(word: string, start: int)
    requires word != "" && ' ' !in word
    ensures Rewritten(word, start) == if IsEmoteWord(word) then Some(RewriteWord(word, start)) else None
  {
    assert Split(word, ' ') == [word];
    assert [word][..0] == [];
    assert RewriteWords([word], start) == [RewriteWord(word, start)];
    if IsEmoteWord(word) {
      assert IsEmoteWord([word][0]);
    }
  }

  /** The host's icon table after the plugin's slots are appended to `table`. */
  function Installed(table: seq<Option<IndexedSprite>>, loader: Emote -> Option<IndexedSprite>)
    : (r: seq<Option<IndexedSprite>>)
    ensures |r| == |table| + |Values|
    ensures r[..|table|] == table
    ensures forall e :: r[|table| + Ordinal(e)] == loader(e)
  {
    table + seq(|Values|, i requires 0 <= i < |Values| => loader(Values[i]))
  }

  /** A table that keeps `table` in front and holds each emote's image in the slot after it is `Installed(table, loader)`. */
  lemma InstalledFromSlots(table: seq<Option<IndexedSprite>>, filled: seq<Option<IndexedSprite>>,
                           loader: Emote -> Option<IndexedSprite>)
    requires |filled| == |table| + |Values| && filled[..|table|] == table
    requires forall j :: |table| <= j < |filled| ==> filled[j] == loader(Values[j - |table|])
    ensures filled == Installed(table, loader)
  {
    var inst := Installed(table, loader);
    forall k | 0 <= k < |filled| ensures filled[k] == inst[k] {
      if k < |table| {
        assert filled[k] == filled[..|table|][k];
        assert inst[k] == inst[..|table|][k];
      } else {
        assert k == |table| + Ordinal(Values[k - |table|]);
      }
    }
  }

  /** `loader` with the image of `e` failing to load. */
  function FailingFor(loader: Emote -> Option<IndexedSprite>, e: Emote): Emote -> Option<IndexedSprite>
  {
    f => if f == e then None else loader(f)
  }

  /**
   * An image that fails to load leaves its own slot empty and changes no other
   * slot of the installed table.
   */
  lemma LoadFailureIsolated(table: seq<Option<IndexedSprite>>, loader: Emote -> Option<IndexedSprite>, e: Emote)
    ensures Installed(table, FailingFor(loader, e)) == Installed(table, loader)[|table| + Ordinal(e) := None]
  {
    var inst := Installed(table, loader);
    var b := inst[|table| + Ordinal(e) := None];
    assert b[..|table|] == inst[..|table|];
    OrdinalsArePositions();
    forall j | |table| <= j < |b| ensures b[j] == FailingFor(loader, e)(Values[j - |table|]) {
      var f := Values[j - |table|];
      assert inst[|table| + Ordinal(f)] == loader(f);
    }
    InstalledFromSlots(table, b, FailingFor(loader, e));
  }

  /** A message is left alone exactly when none of its words matches a trigger, ignoring case. */
  lemma RewrittenNoneIff(message: string, start: int)
    ensures Rewritten(message, start).None? <==>
      forall i, e :: 0 <= i < |Split(message, ' ')| ==> ToLower(Split(message, ' ')[i]) != Trigger(e)
  {
    var words := Split(message, ' ');
    if Rewritten(message, start).None? {
      forall i, e | 0 <= i < |words| ensures ToLower(words[i]) != Trigger(e) {
        assert !IsEmoteWord(words[i]);
        GetEmoteOfTrigger(e);
      }
    } else {
      var i :| 0 <= i < |words| && IsEmoteWord(words[i]);
      GetEmoteSound(ToLower(words[i]));
    }
  }

  /**
   * A rewritten message splits into as many words as the original, each one
   * the original word or, for an emote word, the tag of that emote's slot.
   */
  lemma RewrittenResplits(message: string, start: int)
    requires Rewritten(message, start).Some?
    ensures Split(Rewritten(message, start).value, ' ') == RewriteWords(Split(message, ' '), start)
  {
    var words := Split(message, ' ');
    var i :| 0 <= i < |words| && IsEmoteWord(words[i]);
    EmoteWordNonEmpty(words[i]);
    SplitEmpty(' ');
    SplitLastNonEmpty(message, ' ');
    var out := RewriteWords(words, start);
    RewriteWordsKeepsWords(words, start);
    JoinThenSplit(out, ' ');
  }

  /** Rewriting keeps every word free of spaces and a non-empty last word non-empty. */
  lemma RewriteWordsKeepsWords(words: seq<string>, start: int)
    requires forall i :: 0 <= i < |words| ==> ' ' !in words[i]
    ensures var out := RewriteWords(words, start);
      && (forall i :: 0 <= i < |out| ==> ' ' !in out[i])
      && (words != [] && words[|words| - 1] != "" ==> out[|out| - 1] != "")
  {
    RewriteWordsPointwise(words, start);
  }

  lemma EmoteWordNonEmpty(word: string)
    requires IsEmoteWord(word)
    ensures word != ""
  {
    var e := GetEmote(ToLower(word)).value;
    GetEmoteSound(ToLower(word));
    assert |Trigger(e)| > 0;
  }

  /** A tag produced by the rewriting is never itself an emote word. */
  lemma ImgTagIsNotEmoteWord(id: int)
    ensures !IsEmoteWord(ImgTag(id))
  {
    ImgTagShape(id);
    PunctuatedWordNotMatched(ImgTag(id), 0);
  }

  /** A rewritten word is never an emote word: it is either a non-emote word left alone or a tag. */
  lemma RewriteWordNotEmoteWord(word: string, start: int)
    ensures !IsEmoteWord(RewriteWord(word, start))
  {
    match GetEmote(ToLower(word))
    case Some(e) => ImgTagIsNotEmoteWord(start + Ordinal(e));
    case None =>
  }

  /** Rewriting an already rewritten message changes nothing more. */
  lemma RewriteTwiceIsNoOp(message: string, start: int, start': int)
    requires Rewritten(message, start).Some?
    ensures Rewritten(Rewritten(message, start).value, start') == None
  {
    var words := Split(message, ' ');
    var out := RewriteWords(words, start);
    var r := Rewritten(message, start).value;
    assert r == Join(out, " ");
    assert |words| >= 1;
    assert forall k :: 0 <= k < |out| ==> ' ' !in out[k] && !IsEmoteWord(out[k]) by {
      RewriteWordsKeepsWords(words, start);
      RewriteWordsPointwise(words, start);
      forall k | 0 <= k < |out| ensures !IsEmoteWord(out[k]) {
        RewriteWordNotEmoteWord(words[k], start);
      }
    }
    SplitOfJoinWords(out, ' ');
    var again := Split(r, ' ');
    forall j | 0 <= j < |again| ensures !IsEmoteWord(again[j]) {
      var k :| 0 <= k < |out| && out[k] == again[j];
    }
  }

  /**
   * Matching is by whole word: a word holding any character other than an
   * ASCII letter or digit (punctuation, markup) is never an emote word.
   */
  lemma PunctuatedWordNotMatched(word: string, k: nat)
    requires k < |word| && !IsAlphaNumChar(word[k])
    ensures !IsEmoteWord(word)
  {
    ToLowerKeepsPunctuation(word, k);
    TriggersLowercase();
  }

  lemma ExampleMixedCase(start: int)
    ensures Rewritten("KeKw", start) == Some(ImgTag(start + 7))
  {
    assert ' ' !in "KeKw";
    assert ToLower("KeKw") == Trigger(Kekw) by {
      forall i | 0 <= i < 4 ensures ToLower("KeKw")[i] == Trigger(Kekw)[i] {
        assert LowerChar("KeKw"[i]) == "kekw"[i];
      }
    }
    GetEmoteOfTrigger(Kekw);
    RewrittenOneWord("KeKw", start);
  }

  lemma ExamplePunctuation(start: int)
    ensures Rewritten("kekw!", start) == None
  {
    assert ' ' !in "kekw!";
    PunctuatedWordNotMatched("kekw!", 4);
    RewrittenOneWord("kekw!", start);
  }

  /**
   * Before the icons are installed the slot offset is still -1, so the
   * overhead path, which does not check it, tags `gz` with slot 0: an icon of
   * the host's own table.
   */
  lemma ExampleUnloadedOffset()
    ensures Rewritten("gz", -1) == Some(ImgTag(0))
  {
    assert ' ' !in "gz";
    assert ToLower("gz") == Trigger(Gz);
    GetEmoteOfTrigger(Gz);
    RewrittenOneWord("gz", -1);
  }

  /** The host client: its game state and its mod-icon table, which may be unavailable. */
  class Client {
    var gameState: GameState
    var modIcons: array?<Option<IndexedSprite>>

    constructor (gameState: GameState, modIcons: array?<Option<IndexedSprite>>)
      ensures this.gameState == gameState && this.modIcons == modIcons
    {
      this.gameState := gameState;
      this.modIcons := modIcons;
    }
  }

  class EmotesPlugin {
    const client: Client
    /** The first slot of the plugin's icons in the host table, or -1 before they are installed. */
    var modIconsStart: int

    constructor (client: Client)
      ensures this.client == client && modIconsStart == -1
    {
      this.client := client;
      modIconsStart := -1;
    }

    predicate IsLoaded()
      reads this
    {
      modIconsStart != -1
    }

    /**
     * The effect of `loadEmojiIcons`: nothing changes when the icons are
     * already installed or the host table is unavailable; otherwise a fresh
     * table holding the old one followed by one slot per emote replaces it and
     * the offset records where the new slots begin.
     */
    twostate predicate LoadedIcons(loader: Emote -> Option<IndexedSprite>)
      reads this, client, if client.modIcons == null then {} else {client.modIcons}
    {
      && client.gameState == old(client.gameState)
      && if old(modIconsStart) != -1 || old(client.modIcons) == null then
           modIconsStart == old(modIconsStart) && client.modIcons == old(client.modIcons)
         else
           && modIconsStart == old(client.modIcons.Length)
           && client.modIcons != null && fresh(client.modIcons)
           && client.modIcons[..] == Installed(old(client.modIcons[..]), loader)
    }

    /** `startUp`: installs the icons. */
    method StartUp(loader: Emote -> Option<IndexedSprite>)
      modifies this, client
      ensures LoadedIcons(loader)
    {
      LoadEmojiIcons(loader);
    }

    /** `onGameStateChanged`: installs the icons when the new state is `LoggedIn`. */
    method OnGameStateChanged(newState: GameState, loader: Emote -> Option<IndexedSprite>)
      modifies this, client
      ensures newState == LoggedIn ==> LoadedIcons(loader)
      ensures newState != LoggedIn ==> unchanged(this, client)
    {
      if newState == LoggedIn {
        LoadEmojiIcons(loader);
      }
    }

    /**
     * `loadEmojiIcons`. `loader(e)` stands for `e.loadImage()` (reading the
     * resource `ResourceName(e)` and scaling it) followed by indexing the
     * image; None when any of it throws.
     */
    method LoadEmojiIcons(loader: Emote -> Option<IndexedSprite>)
      modifies this, client
      ensures LoadedIcons(loader)
      ensures IsLoaded() <==> old(IsLoaded()) || old(client.modIcons) != null
      ensures old(IsLoaded()) || old(client.modIcons) == null ==> unchanged(this, client)
    {
      var modIcons := client.modIcons;
      if modIconsStart != -1 || modIcons == null {
        return;
      }
      var emotes := Values;
      var newModIcons := new Option<IndexedSprite>[modIcons.Length + |emotes|](
        j reads modIcons => if 0 <= j < modIcons.Length then modIcons[j] else None);
      modIconsStart := modIcons.Length;
      var start := modIconsStart;
      for i := 0 to |emotes|
        modifies newModIcons
        invariant modIconsStart == start == modIcons.Length
        invariant newModIcons[..start] == modIcons[..]
        invariant forall j :: start <= j < start + i ==> newModIcons[j] == loader(emotes[j - start])
        invariant forall j :: start + i <= j < newModIcons.Length ==> newModIcons[j] == None
      {
        match loader(emotes[i])
        case Some(sprite) => newModIcons[modIconsStart + i] := Some(sprite);
        case None =>
      }
      client.modIcons := newModIcons;
      InstalledFromSlots(modIcons[..], newModIcons[..], loader);
    }

    /** `updateMessage`: rewrites the emote words of `message` against the current offset. */
    method UpdateMessage(message: string) returns (updated: Option<string>)
      ensures updated == Rewritten(message, modIconsStart)
    {
      var words := Split(message, ' ');
      var messageWords := new string[|words|](i requires 0 <= i < |words| => words[i]);
      var editedMessage := false;
      for i := 0 to messageWords.Length
        invariant messageWords[..i] == RewriteWords(words[..i], modIconsStart)
        invariant forall j :: i <= j < messageWords.Length ==> messageWords[j] == words[j]
        invariant editedMessage == AnyEmoteWord(words[..i])
      {
        ScanStep(words, i, modIconsStart);
        ghost var rewrittenSoFar := messageWords[..i];
        ghost var next := RewriteWord(words[i], modIconsStart);
        var emote := GetEmote(ToLower(messageWords[i]));
        if emote.None? {
          assert messageWords[..i + 1] == rewrittenSoFar + [next];
          continue;
        }
        var emojiId := modIconsStart + Ordinal(emote.value);
        assert next == ImgTag(emojiId);
        messageWords[i] := ImgTag(emojiId);
        editedMessage := true;
        assert messageWords[..i] == rewrittenSoFar;
        assert messageWords[..i + 1] == rewrittenSoFar + [next];
      }
      assert words[..|words|] == words && messageWords[..] == messageWords[..messageWords.Length];
      RewrittenByScan(message, modIconsStart);
      if !editedMessage {
        return None;
      }
      return Some(Join(messageWords[..], " "));
    }

    /**
     * `onChatMessage`: the rewritten text handed back to the host, or None
     * when the message is left alone.
     */
    method OnChatMessage(chatMessage: ChatMessage) returns (updated: Option<string>)
      ensures updated.Some? ==> client.gameState == LoggedIn && IsLoaded() && IsRewrittenType(chatMessage.messageType)
      ensures client.gameState == LoggedIn && IsLoaded() && IsRewrittenType(chatMessage.messageType) ==>
        updated == Rewritten(chatMessage.message, modIconsStart)
    {
      if client.gameState != LoggedIn || modIconsStart == -1 {
        return None;
      }
      if !IsRewrittenType(chatMessage.messageType) {
        return None;
      }
      updated := UpdateMessage(chatMessage.message);
    }

    /**
     * `onOverheadTextChanged`: only players' text is rewritten, and the offset
     * is not checked, so text is rewritten against -1 before the icons exist.
     */
    method OnOverheadTextChanged(actor: ActorKind, overheadText: string) returns (updated: Option<string>)
      ensures actor != Player ==> updated == None
      ensures actor == Player ==> updated == Rewritten(overheadText, modIconsStart)
    {
      if actor != Player {
        return None;
      }
      updated := UpdateMessage(overheadText);
    }
  }
}

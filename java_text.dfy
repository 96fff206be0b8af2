/**
 * The few pieces of Java's string library the plugin relies on:
 * `String.split(" ")` (limit 0, so trailing empty strings are dropped),
 * joptsimple's `Strings.join(words, " ")`, and `toLowerCase`, restricted
 * to the ASCII range.
 */
module JavaText {

  predicate IsUpperChar(c: char) { 'A' <= c <= 'Z' }

  /** Letters and digits in the ASCII range. */
  predicate IsAlphaNumChar(c: char) { 'a' <= c <= 'z' || 'A' <= c <= 'Z' || '0' <= c <= '9' }

  predicate IsLowerCase(s: string) {
    forall i :: 0 <= i < |s| ==> !IsUpperChar(s[i])
  }

  /** ASCII case fold of one character. */
  function LowerChar(c: char): (d: char)
    ensures !IsUpperChar(d)
    ensures IsAlphaNumChar(d) <==> IsAlphaNumChar(c)
    ensures !IsUpperChar(c) ==> d == c
  {
    if IsUpperChar(c) then (c as int + 32) as char else c
  }

  /** `toLowerCase`, with the fold restricted to ASCII letters. */
  function ToLower(s: string): (r: string)
    ensures |r| == |s| && IsLowerCase(r)
    ensures IsLowerCase(s) ==> r == s
  {
    seq(|s|, i requires 0 <= i < |s| => LowerChar(s[i]))
  }

  /** Folding case keeps non-alphanumeric characters where they were. */
  lemma ToLowerKeepsPunctuation(s: string, k: nat)
    requires k < |s| && !IsAlphaNumChar(s[k])
    ensures !IsAlphaNumChar(ToLower(s)[k])
  {
  }

  /** The pieces of `s` between consecutive occurrences of `sep`, empty pieces included. */
  function SplitAll(s: string, sep: char): (r: seq<string>)
    ensures |r| >= 1
    ensures forall i :: 0 <= i < |r| ==> sep !in r[i]
    decreases |s|
  {
    if s == [] then [""]
    else
      var rest := SplitAll(s[1..], sep);
      if s[0] == sep then [""] + rest
      else [[s[0]] + rest[0]] + rest[1..]
  }

  /** Drops the empty strings at the end of `ws`, as `split` does with limit 0. */
  function StripTrailingEmpty(ws: seq<string>): (r: seq<string>)
    ensures r <= ws
    ensures r == [] || r[|r| - 1] != ""
    ensures forall i :: |r| <= i < |ws| ==> ws[i] == ""
  {
    if ws != [] && ws[|ws| - 1] == "" then StripTrailingEmpty(ws[..|ws| - 1]) else ws
  }

  /**
   * `s.split(String.valueOf(sep))`: when `sep` does not occur the result is
   * `s` alone (so splitting "" gives [""]); otherwise the pieces between
   * separators with the trailing empty ones removed.
   */
  function Split(s: string, sep: char): (r: seq<string>)
    ensures forall i :: 0 <= i < |r| ==> sep !in r[i]
  {
    if sep !in s then [s] else StripTrailingEmpty(SplitAll(s, sep))
  }

  /** joptsimple's `Strings.join`: the words with `sep` between each neighbouring pair. */
  function Join(ws: seq<string>, sep: string): string
  {
    if ws == [] then "" else if |ws| == 1 then ws[0] else ws[0] + sep + Join(ws[1..], sep)
  }

  /** `s` without the run of `c` characters at its end. */
  function TrimTrailing(s: string, c: char): (r: string)
    ensures r <= s
    ensures r == [] || r[|r| - 1] != c
    ensures forall i :: |r| <= i < |s| ==> s[i] == c
  {
    if s != [] && s[|s| - 1] == c then TrimTrailing(s[..|s| - 1], c) else s
  }

  /** Joining a word in front of a non-empty list puts one separator between them. */
  lemma JoinCons(w: string, ws: seq<string>, sep: string)
    requires |ws| >= 1
    ensures Join([w] + ws, sep) == w + sep + Join(ws, sep)
  {
    assert ([w] + ws)[1..] == ws;
  }

  lemma {:induction false} JoinSplitAll(s: string, sep: char)
    ensures Join(SplitAll(s, sep), [sep]) == s
    decreases |s|
  {
    if s != [] {
      var rest := SplitAll(s[1..], sep);
      JoinSplitAll(s[1..], sep);
      assert s == [s[0]] + s[1..];
      if s[0] == sep {
        JoinCons("", rest, [sep]);
      } else if |rest| == 1 {
        assert SplitAll(s, sep) == [[s[0]] + rest[0]];
      } else {
        var w := [s[0]] + rest[0];
        assert rest == [rest[0]] + rest[1..];
        JoinCons(w, rest[1..], [sep]);
        JoinCons(rest[0], rest[1..], [sep]);
      }
    }
  }

  /** A separator-free word in front of a separator becomes exactly one piece. */
  lemma {:induction false} SplitAllFront(w: string, sep: char, t: string)
    requires sep !in w
    ensures SplitAll(w + [sep] + t, sep) == [w] + SplitAll(t, sep)
    decreases |w|
  {
    if w == [] {
      assert w + [sep] + t == [sep] + t;
      assert ([sep] + t)[1..] == t;
    } else {
      SplitAllFront(w[1..], sep, t);
      assert (w + [sep] + t)[1..] == w[1..] + [sep] + t;
      assert [w[0]] + w[1..] == w;
    }
  }

  lemma {:induction false} SplitAllOfWord(w: string, sep: char)
    requires sep !in w
    ensures SplitAll(w, sep) == [w]
    decreases |w|
  {
    if w != [] {
      SplitAllOfWord(w[1..], sep);
      assert [w[0]] + w[1..] == w;
    }
  }

  /** Splitting the join of separator-free words gives the words back, empty ones included. */
  lemma {:induction false} SplitAllJoin(ws: seq<string>, sep: char)
    requires |ws| >= 1
    requires forall i :: 0 <= i < |ws| ==> sep !in ws[i]
    ensures SplitAll(Join(ws, [sep]), sep) == ws
    decreases |ws|
  {
    if |ws| == 1 {
      SplitAllOfWord(ws[0], sep);
    } else {
      SplitAllJoin(ws[1..], sep);
      SplitAllFront(ws[0], sep, Join(ws[1..], [sep]));
      assert [ws[0]] + ws[1..] == ws;
    }
  }

  /** A join whose last word is not empty ends with that word's last character. */
  lemma {:induction false} JoinEndsWithLast(ws: seq<string>, sep: string)
    requires |ws| >= 1 && ws[|ws| - 1] != ""
    ensures var j := Join(ws, sep); var last := ws[|ws| - 1];
      j != "" && j[|j| - 1] == last[|last| - 1]
    decreases |ws|
  {
    if |ws| > 1 {
      JoinEndsWithLast(ws[1..], sep);
      var rest := Join(ws[1..], sep);
      assert Join(ws, sep) == (ws[0] + sep) + rest;
    }
  }

  lemma {:induction false} JoinSnoc(ws: seq<string>, w: string, sep: string)
    requires |ws| >= 1
    ensures Join(ws + [w], sep) == Join(ws, sep) + sep + w
    decreases |ws|
  {
    if |ws| == 1 {
      assert (ws + [w])[1..] == [w];
    } else {
      JoinSnoc(ws[1..], w, sep);
      assert (ws + [w])[1..] == ws[1..] + [w];
    }
  }

  lemma {:induction false} TrimTrailingSnoc(s: string, c: char)
    ensures TrimTrailing(s + [c], c) == TrimTrailing(s, c)
  {
    assert (s + [c])[..|s|] == s;
  }

  lemma TrimTrailingNoEnd(s: string, c: char)
    requires s == [] || s[|s| - 1] != c
    ensures TrimTrailing(s, c) == s
  {
  }

  /** Joining after dropping trailing empty words equals trimming the joined text. */
  lemma {:induction false} JoinStripTrailingEmpty(ws: seq<string>, sep: char)
    requires forall i :: 0 <= i < |ws| ==> sep !in ws[i]
    ensures Join(StripTrailingEmpty(ws), [sep]) == TrimTrailing(Join(ws, [sep]), sep)
    decreases |ws|
  {
    if ws == [] {
    } else if ws[|ws| - 1] == "" {
      var init := ws[..|ws| - 1];
      JoinStripTrailingEmpty(init, sep);
      if init == [] {
        assert ws == [""];
      } else {
        assert init + [""] == ws;
        JoinSnoc(init, "", [sep]);
        assert Join(ws, [sep]) == Join(init, [sep]) + [sep];
        TrimTrailingSnoc(Join(init, [sep]), sep);
      }
    } else {
      JoinEndsWithLast(ws, [sep]);
      TrimTrailingNoEnd(Join(ws, [sep]), sep);
    }
  }

  /**
   * Rejoining the result of `split` restores the text up to its trailing
   * separators, which `split` drops.
   */
  lemma SplitThenJoin(s: string, sep: char)
    ensures Join(Split(s, sep), [sep]) == TrimTrailing(s, sep)
  {
    if sep !in s {
      if s != [] {
        assert s[|s| - 1] in s;
      }
      TrimTrailingNoEnd(s, sep);
    } else {
      JoinStripTrailingEmpty(SplitAll(s, sep), sep);
      JoinSplitAll(s, sep);
    }
  }

  /**
   * Splitting the join of separator-free words whose last word is not empty
   * gives the words back.
   */
  lemma JoinThenSplit(ws: seq<string>, sep: char)
    requires |ws| >= 1 && ws[|ws| - 1] != ""
    requires forall i :: 0 <= i < |ws| ==> sep !in ws[i]
    ensures Split(Join(ws, [sep]), sep) == ws
  {
    SplitAllJoin(ws, sep);
    if sep !in Join(ws, [sep]) {
      SplitAllOfWord(Join(ws, [sep]), sep);
    }
  }

  /** Every word of a split of a join is one of the joined words. */
  lemma SplitOfJoinWords(ws: seq<string>, sep: char)
    requires |ws| >= 1
    requires forall i :: 0 <= i < |ws| ==> sep !in ws[i]
    ensures forall i :: 0 <= i < |Split(Join(ws, [sep]), sep)| ==> Split(Join(ws, [sep]), sep)[i] in ws
  {
    SplitAllJoin(ws, sep);
    if sep !in Join(ws, [sep]) {
      SplitAllOfWord(Join(ws, [sep]), sep);
    }
  }

  /** The last word of a split of non-empty text is never empty. */
  lemma SplitLastNonEmpty(s: string, sep: char)
    requires s != ""
    ensures var ws := Split(s, sep); ws == [] || ws[|ws| - 1] != ""
  {
  }

  lemma SplitEmpty(sep: char)
    ensures Split("", sep) == [""]
  {
  }

  lemma SplitOnlySeparator(sep: char)
    ensures Split([sep], sep) == []
  {
    assert [sep][1..] == [];
    assert SplitAll([sep], sep) == ["", ""];
  }
}

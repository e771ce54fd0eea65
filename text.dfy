/** The string built-ins the decoder leans on, as the host language defines
    them: `split` on one separator character, `join` with one separator
    character, and `trim`. Strings are sequences of characters. */
module Text {

  function Last<T>(s: seq<T>): T
    requires |s| > 0
  {
    s[|s| - 1]
  }

  function DropLast<T>(s: seq<T>): seq<T>
    requires |s| > 0
  {
    s[..|s| - 1]
  }

  /** The characters `String.prototype.trim` removes: ECMAScript white space
      and line terminators. */
  predicate IsJsWhitespace(c: char) {
    c == '\t' || c == '\n' || c == '\U{000B}' || c == '\U{000C}' || c == '\r' || c == ' '
    || c == '\U{00A0}' || c == '\U{1680}' || ('\U{2000}' <= c <= '\U{200A}')
    || c == '\U{2028}' || c == '\U{2029}' || c == '\U{202F}' || c == '\U{205F}'
    || c == '\U{3000}' || c == '\U{FEFF}'
  }

  /** `s.split(sep)`: the runs of characters between separators, in order;
      there is always at least one (the empty string gives one empty run). */
  function Split(s: string, sep: char): (parts: seq<string>)
    ensures |parts| >= 1
    ensures forall k :: 0 <= k < |parts| ==> sep !in parts[k]
  {
    if s == [] then [[]]
    else
      var parts := Split(DropLast(s), sep);
      if Last(s) == sep then parts + [[]]
      else DropLast(parts) + [Last(parts) + [Last(s)]]
  }

  /** `parts.join(sep)`: the parts in order with one separator between each
      two of them. */
  function Join(parts: seq<string>, sep: char): string
  {
    if |parts| == 0 then ""
    else if |parts| == 1 then parts[0]
    else Join(DropLast(parts), sep) + [sep] + Last(parts)
  }

  /** `s.trim()`: leading and trailing white space removed. */
  function Trim(s: string): string
  {
    TrimEnd(TrimStart(s))
  }

  function TrimStart(s: string): string
    decreases |s|
  {
    if s != [] && IsJsWhitespace(s[0]) then TrimStart(s[1..]) else s
  }

  function TrimEnd(s: string): string
    decreases |s|
  {
    if s != [] && IsJsWhitespace(Last(s)) then TrimEnd(DropLast(s)) else s
  }

  /** Neither end of `s` is white space. */
  predicate Unpadded(s: string) {
    s == [] || (!IsJsWhitespace(s[0]) && !IsJsWhitespace(Last(s)))
  }

  /** Splitting and joining back on the same separator gives the string back. */
  lemma {:induction false} JoinSplit(s: string, sep: char)
    ensures Join(Split(s, sep), sep) == s
  {
    if s != [] {
      var init, c := DropLast(s), Last(s);
      assert s == init + [c];
      var parts := Split(init, sep);
      JoinSplit(init, sep);
      if c == sep {
        var parts' := parts + [[]];
        assert Split(s, sep) == parts';
        assert DropLast(parts') == parts;
        assert Join(parts', sep) == Join(parts, sep) + [sep] + [];
      } else {
        var parts' := DropLast(parts) + [Last(parts) + [c]];
        assert Split(s, sep) == parts';
        if |parts| == 1 {
          assert Join(parts', sep) == parts[0] + [c];
        } else {
          assert DropLast(parts') == DropLast(parts);
          assert Join(parts', sep) == Join(DropLast(parts), sep) + [sep] + (Last(parts) + [c]);
          assert Join(parts, sep) == Join(DropLast(parts), sep) + [sep] + Last(parts);
        }
      }
    }
  }

  lemma {:induction false} SplitWithoutSeparator(w: string, sep: char)
    requires sep !in w
    ensures Split(w, sep) == [w]
  {
    if w != [] {
      SplitWithoutSeparator(DropLast(w), sep);
      assert w == DropLast(w) + [Last(w)];
    }
  }

  lemma {:induction false} SplitAppendWord(x: string, w: string, sep: char)
    requires sep !in w
    ensures Split(x + [sep] + w, sep) == Split(x, sep) + [w]
  {
    if w == [] {
      assert x + [sep] + w == x + [sep];
      assert DropLast(x + [sep]) == x;
    } else {
      var w' := DropLast(w);
      SplitAppendWord(x, w', sep);
      assert DropLast(x + [sep] + w) == x + [sep] + w';
      assert Last(x + [sep] + w) == Last(w);
      assert w == w' + [Last(w)];
    }
  }

  /** Joining words that do not contain the separator and splitting again
      gives the words back. */
  lemma {:induction false} SplitJoin(words: seq<string>, sep: char)
    requires |words| >= 1
    requires forall k :: 0 <= k < |words| ==> sep !in words[k]
    ensures Split(Join(words, sep), sep) == words
  {
    if |words| == 1 {
      SplitWithoutSeparator(words[0], sep);
    } else {
      SplitJoin(DropLast(words), sep);
      SplitAppendWord(Join(DropLast(words), sep), Last(words), sep);
      assert words == DropLast(words) + [Last(words)];
    }
  }

  /** Joining a concatenation puts one separator between the two joins. */
  lemma {:induction false} JoinConcat(a: seq<string>, b: seq<string>, sep: char)
    requires |a| >= 1 && |b| >= 1
    ensures Join(a + b, sep) == Join(a, sep) + [sep] + Join(b, sep)
    decreases |b|
  {
    if |b| == 1 {
      assert DropLast(a + b) == a;
    } else {
      JoinConcat(a, DropLast(b), sep);
      assert DropLast(a + b) == a + DropLast(b);
    }
  }

  /** `trim` leaves an unpadded string alone, and removes exactly one leading
      space in front of one. */
  lemma TrimUnpadded(s: string)
    requires Unpadded(s)
    ensures Trim(s) == s
    ensures Trim([' '] + s) == s
  {
    assert ([' '] + s)[1..] == s;
  }

  /** The total length of the parts. */
  function TotalLength(parts: seq<string>): nat {
    if parts == [] then 0 else TotalLength(DropLast(parts)) + |Last(parts)|
  }

  /** A join holds every character of the parts and one separator between
      each two of them, and ends with the last part. */
  lemma {:induction false} JoinLength(parts: seq<string>, sep: char)
    requires |parts| >= 1
    ensures var r := Join(parts, sep);
      && |r| == TotalLength(parts) + |parts| - 1
      && r[|r| - |Last(parts)|..] == Last(parts)
  {
    if |parts| == 1 {
      assert DropLast(parts) == [];
    } else {
      JoinLength(DropLast(parts), sep);
    }
  }

  /** Leading white space removed: what is left is a suffix of `s` that does
      not start with white space, and everything cut off is white space. */
  lemma {:induction false} TrimStartCuts(s: string)
    ensures var r := TrimStart(s);
      && |r| <= |s| && r == s[|s| - |r|..]
      && (r == [] || !IsJsWhitespace(r[0]))
      && forall k :: 0 <= k < |s| - |r| ==> IsJsWhitespace(s[k])
    decreases |s|
  {
    if s != [] && IsJsWhitespace(s[0]) {
      TrimStartCuts(s[1..]);
    }
  }

  /** Trailing white space removed: what is left is a prefix of `s` that
      does not end with white space, and everything cut off is white space. */
  lemma {:induction false} TrimEndCuts(s: string)
    ensures var r := TrimEnd(s);
      && |r| <= |s| && r == s[..|r|]
      && (r == [] || !IsJsWhitespace(Last(r)))
      && forall k :: |r| <= k < |s| ==> IsJsWhitespace(s[k])
    decreases |s|
  {
    if s != [] && IsJsWhitespace(Last(s)) {
      TrimEndCuts(DropLast(s));
    }
  }

  /** `trim` keeps the slice of `s` between its leading and its trailing
      white space: the result has no white space at either end, and every
      character cut off is white space. */
  lemma TrimCutsWhitespace(s: string)
    ensures var t, i := Trim(s), |s| - |TrimStart(s)|;
      && Unpadded(t)
      && 0 <= i && i + |t| <= |s| && t == s[i..i + |t|]
      && (forall k :: 0 <= k < i ==> IsJsWhitespace(s[k]))
      && (forall k :: i + |t| <= k < |s| ==> IsJsWhitespace(s[k]))
  {
    var u := TrimStart(s);
    TrimStartCuts(s);
    TrimEndCuts(u);
    var t, i := Trim(s), |s| - |u|;
    assert t == u[..|t|];
    forall k | i + |t| <= k < |s|
      ensures IsJsWhitespace(s[k])
    {
      assert s[k] == u[k - i];
    }
    if t != [] {
      assert t[0] == u[0];
    }
  }
}

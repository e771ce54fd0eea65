/** The greedy word wrapper of `decode`: the coded source is split on spaces
    and the words are packed onto lines under a width budget, before any
    decoding, so that colour markup never counts toward the width. */
module Wrapping {
  import opened Text

  /** `wouldExceedLineLength`: the raw length of the line so far plus the
      length of the next word is over the width. The space that would join
      the word to the line is not counted. */
  predicate WouldExceedLineLength(currentLength: nat, nextWordLength: nat, width: nat) {
    currentLength + nextWordLength > width
  }

  /** One turn of the wrapping loop: a word that fits is appended to the
      current (last) line after a space, a word that does not fit starts a new
      line on its own. */
  function PackStep(lines: seq<string>, word: string, width: nat): (lines': seq<string>)
    requires |lines| >= 1
    ensures |lines'| >= 1
  {
    if WouldExceedLineLength(|Last(lines)|, |word|, width) then lines + [word]
    else DropLast(lines) + [Last(lines) + " " + word]
  }

  /** The raw lines the loop of `decode` builds from `words`, before trimming;
      line 0 starts empty. */
  function Pack(words: seq<string>, width: nat): (lines: seq<string>)
    ensures |lines| >= 1
  {
    if words == [] then [""] else PackStep(Pack(DropLast(words), width), Last(words), width)
  }

  /** Which words a turn of the loop puts on which line. */
  function GroupStep(groups: seq<seq<string>>, lines: seq<string>, word: string, width: nat): (groups': seq<seq<string>>)
    requires |lines| == |groups| >= 1
    ensures |groups'| == |PackStep(lines, word, width)|
  {
    if WouldExceedLineLength(|Last(lines)|, |word|, width) then groups + [[word]]
    else DropLast(groups) + [Last(groups) + [word]]
  }

  /** Which words went to each line of `Pack(words, width)`. */
  function Groups(words: seq<string>, width: nat): (groups: seq<seq<string>>)
    ensures |groups| == |Pack(words, width)|
  {
    if words == [] then [[]]
    else GroupStep(Groups(DropLast(words), width), Pack(DropLast(words), width), Last(words), width)
  }

  /** The groups one after the other. */
  function Flatten(groups: seq<seq<string>>): seq<string>
  {
    if groups == [] then [] else Flatten(DropLast(groups)) + Last(groups)
  }

  /** Every word preceded by a space, as line 0 is built. */
  function SpacePrefixed(words: seq<string>): string
  {
    if words == [] then "" else SpacePrefixed(DropLast(words)) + " " + Last(words)
  }

  /** The lines `decode` works on: `source.split(' ')` packed, then every line
      trimmed. */
  function WrappedLines(source: string, width: nat): (lines: seq<string>)
    ensures |lines| >= 1
  {
    var raw := Pack(Split(source, ' '), width);
    seq(|raw|, k requires 0 <= k < |raw| => Trim(raw[k]))
  }

  /** The source is made of non-empty words separated by single spaces, and
      no word begins or ends with other white space. */
  predicate WellSpaced(source: string) {
    forall w :: w in Split(source, ' ') ==> w != [] && Unpadded(w)
  }

  /** The wrapping loop of `decode`, with the trimming that follows it. */
  method WrapLines(source: string, width: nat) returns (lines: seq<string>)
    ensures lines == WrappedLines(source, width)
  {
    var words := Split(source, ' ');
    var raw := [""];
    var currentLine := 0;
    for i := 0 to |words|
      invariant raw == Pack(words[..i], width)
      invariant currentLine == |raw| - 1
    {
      var word := words[i];
      PackPrefixStep(words, i, width);
      if WouldExceedLineLength(|raw[currentLine]|, |word|, width) {
        currentLine := currentLine + 1;
        raw := raw + [word];
        assert raw == PackStep(Pack(words[..i], width), word, width);
      } else {
        raw := raw[currentLine := raw[currentLine] + " " + word];
        assert raw == DropLast(Pack(words[..i], width)) + [Last(Pack(words[..i], width)) + " " + word];
      }
    }
    assert words[..|words|] == words;
    assert raw == Pack(words, width);
    lines := seq(|raw|, k requires 0 <= k < |raw| => Trim(raw[k]));
  }

  lemma PackPrefixStep(words: seq<string>, i: nat, width: nat)
    requires i < |words|
    ensures Pack(words[..i + 1], width) == PackStep(Pack(words[..i], width), words[i], width)
  {
    assert DropLast(words[..i + 1]) == words[..i];
  }

  /** `lines` are built from the runs `groups` of `words`: line 0 is its
      words each after a space (nothing at all when the first word did not
      fit), every later line is a non-empty run of words joined by single
      spaces, and the runs in order are exactly the words. */
  ghost predicate Shaped(lines: seq<string>, groups: seq<seq<string>>, words: seq<string>) {
    && |lines| == |groups| >= 1
    && Flatten(groups) == words
    && lines[0] == SpacePrefixed(groups[0])
    && forall k :: 1 <= k < |lines| ==> groups[k] != [] && lines[k] == Join(groups[k], ' ')
  }

  lemma ShapedStep(lines: seq<string>, groups: seq<seq<string>>, words: seq<string>, word: string, width: nat)
    requires Shaped(lines, groups, words)
    ensures Shaped(PackStep(lines, word, width), GroupStep(groups, lines, word, width), words + [word])
  {
    var n := |lines|;
    var lines', groups' := PackStep(lines, word, width), GroupStep(groups, lines, word, width);
    if WouldExceedLineLength(|Last(lines)|, |word|, width) {
      assert DropLast(groups') == groups;
    } else {
      assert DropLast(groups') == DropLast(groups);
      assert Flatten(groups) == Flatten(DropLast(groups)) + Last(groups);
      assert Flatten(groups') == Flatten(groups) + [word];
      if n == 1 {
        assert DropLast(groups'[0]) == groups[0];
      } else {
        assert DropLast(Last(groups) + [word]) == Last(groups);
        assert lines'[n - 1] == Join(groups'[n - 1], ' ');
      }
    }
  }

  /** Pack and Groups agree: the raw lines are made of the runs of words. */
  lemma {:induction false} PackShape(words: seq<string>, width: nat)
    ensures Shaped(Pack(words, width), Groups(words, width), words)
  {
    if words == [] {
      assert Flatten([[]]) == Flatten([]) + [];
    } else {
      var init, word := DropLast(words), Last(words);
      PackShape(init, width);
      ShapedStep(Pack(init, width), Groups(init, width), init, word, width);
      assert words == init + [word];
    }
  }

  /** Raw line 0 and every line holding two or more words are at most one
      character over the width. */
  ghost predicate Bounded(lines: seq<string>, groups: seq<seq<string>>, width: nat)
    requires |lines| == |groups| >= 1
  {
    && |lines[0]| <= width + 1
    && forall k :: 1 <= k < |lines| && |groups[k]| >= 2 ==> |lines[k]| <= width + 1
  }

  lemma BoundedStep(lines: seq<string>, groups: seq<seq<string>>, word: string, width: nat)
    requires |lines| == |groups| >= 1 && Bounded(lines, groups, width)
    ensures Bounded(PackStep(lines, word, width), GroupStep(groups, lines, word, width), width)
  {
  }

  /** A line that holds two or more words is at most one character over the
      width, and raw line 0 is too (its trimmed form is within the width). */
  lemma {:induction false} PackBounds(words: seq<string>, width: nat)
    ensures Bounded(Pack(words, width), Groups(words, width), width)
  {
    if words != [] {
      var init := DropLast(words);
      PackBounds(init, width);
      BoundedStep(Pack(init, width), Groups(init, width), Last(words), width);
    }
  }

  /** Each line is closed only because the first word of the next line would
      have taken it over the width. */
  ghost predicate Greedy(lines: seq<string>, groups: seq<seq<string>>, width: nat)
    requires |lines| == |groups|
  {
    forall k :: 0 <= k < |lines| - 1 ==>
      groups[k + 1] != [] && WouldExceedLineLength(|lines[k]|, |groups[k + 1][0]|, width)
  }

  lemma GreedyStep(lines: seq<string>, groups: seq<seq<string>>, words: seq<string>, word: string, width: nat)
    requires Shaped(lines, groups, words) && Greedy(lines, groups, width)
    ensures Greedy(PackStep(lines, word, width), GroupStep(groups, lines, word, width), width)
  {
    var n := |lines|;
    var lines', groups' := PackStep(lines, word, width), GroupStep(groups, lines, word, width);
    if !WouldExceedLineLength(|Last(lines)|, |word|, width) {
      forall k | 0 <= k < n - 1
        ensures groups'[k + 1] != [] && WouldExceedLineLength(|lines'[k]|, |groups'[k + 1][0]|, width)
      {
        assert lines'[k] == lines[k];
        if k + 1 == n - 1 {
          assert groups'[k + 1] == groups[k + 1] + [word];
        } else {
          assert groups'[k + 1] == groups[k + 1];
        }
      }
    }
  }

  /** The packing is greedy. */
  lemma {:induction false} PackGreedy(words: seq<string>, width: nat)
    ensures Greedy(Pack(words, width), Groups(words, width), width)
  {
    if words != [] {
      var init := DropLast(words);
      PackGreedy(init, width);
      PackShape(init, width);
      GreedyStep(Pack(init, width), Groups(init, width), init, Last(words), width);
    }
  }

  /** Line 0 receives a word exactly when the first word fits the width. */
  lemma {:induction false} FirstGroup(words: seq<string>, width: nat)
    requires words != []
    ensures Groups(words, width)[0] == [] <==> WouldExceedLineLength(0, |words[0]|, width)
  {
    var init, word := DropLast(words), Last(words);
    if init == [] {
      assert words == [word];
    } else {
      FirstGroup(init, width);
      PackShape(init, width);
      var lines, groups := Pack(init, width), Groups(init, width);
      assert init[0] == words[0];
    }
  }

  lemma {:induction false} FlattenConcat(a: seq<seq<string>>, b: seq<seq<string>>)
    ensures Flatten(a + b) == Flatten(a) + Flatten(b)
    decreases |b|
  {
    if b == [] {
      assert a + b == a;
    } else {
      var b', x := DropLast(b), Last(b);
      FlattenConcat(a, b');
      assert DropLast(a + b) == a + b' && Last(a + b) == x;
      calc {
        Flatten(a + b);
        Flatten(a + b') + x;
        Flatten(a) + Flatten(b') + x;
        Flatten(a) + (Flatten(b') + x);
        Flatten(a) + Flatten(b);
      }
    }
  }

  lemma {:induction false} InFlatten(groups: seq<seq<string>>, k: nat, j: nat)
    requires k < |groups| && j < |groups[k]|
    ensures groups[k][j] in Flatten(groups)
  {
    if k < |groups| - 1 {
      InFlatten(DropLast(groups), k, j);
    }
  }

  lemma {:induction false} SpacePrefixedJoin(words: seq<string>)
    requires words != []
    ensures SpacePrefixed(words) == " " + Join(words, ' ')
  {
    if |words| == 1 {
      assert SpacePrefixed(words) == SpacePrefixed([]) + " " + words[0];
    } else {
      SpacePrefixedJoin(DropLast(words));
    }
  }

  /** A join of unpadded non-empty words is unpadded and not empty. */
  lemma {:induction false} JoinUnpadded(words: seq<string>)
    requires words != []
    requires forall k :: 0 <= k < |words| ==> words[k] != [] && Unpadded(words[k])
    ensures Join(words, ' ') != [] && Unpadded(Join(words, ' '))
  {
    if |words| > 1 {
      JoinUnpadded(DropLast(words));
      var j := Join(DropLast(words), ' ');
      assert Join(words, ' ') == j + [' '] + Last(words);
      assert Join(words, ' ')[0] == j[0];
    }
  }

  /** Joining the joins of non-empty groups joins all their words. */
  lemma {:induction false} JoinGroups(groups: seq<seq<string>>)
    requires groups != []
    requires forall k :: 0 <= k < |groups| ==> groups[k] != []
    ensures Join(Joined(groups), ' ') == Join(Flatten(groups), ' ')
  {
    var joined := Joined(groups);
    if |groups| == 1 {
      assert DropLast(groups) == [];
      assert Flatten(groups) == groups[0];
    } else {
      var init, last := DropLast(groups), Last(groups);
      JoinGroups(init);
      assert DropLast(joined) == Joined(init) && Last(joined) == Join(last, ' ');
      assert Flatten(init) != [] by {
        NonEmptyFlatten(init);
      }
      JoinConcat(Flatten(init), last, ' ');
      assert Flatten(groups) == Flatten(init) + last;
    }
  }

  /** Non-empty groups, of which there is at least one, flatten to a
      non-empty sequence. */
  lemma NonEmptyFlatten(groups: seq<seq<string>>)
    requires groups != [] && Last(groups) != []
    ensures Flatten(groups) != []
  {
    assert Flatten(groups) == Flatten(DropLast(groups)) + Last(groups);
  }

  /** Wrapping loses and adds nothing: for a source of single-space-separated
      words, there is always a line, an empty source gives one empty line,
      only line 0 can be empty (exactly when the first word is wider than the
      width), and the lines joined by single spaces, after dropping an empty
      line 0, are the source again. */
  lemma WrapRoundTrip(source: string, width: nat)
    requires source == "" || WellSpaced(source)
    ensures var lines := WrappedLines(source, width);
      && (source == "" ==> lines == [""])
      && (source != "" ==> (lines[0] == "" <==> |Split(source, ' ')[0]| > width))
      && (forall k :: 1 <= k < |lines| ==> lines[k] != "")
      && Join(if lines[0] == "" then lines[1..] else lines, ' ') == source
  {
    var lines := WrappedLines(source, width);
    if source == "" {
      assert Split(source, ' ') == [[]];
      var empty: seq<string> := [[]];
      assert DropLast(empty) == [];
      assert Pack(empty, width) == PackStep([""], "", width);
      assert !WouldExceedLineLength(|Last(empty)|, 0, width);
      assert PackStep(empty, "", width) == DropLast(empty) + [Last(empty) + " " + ""];
      assert Last(empty) + " " + "" == " ";
      assert Trim(" ") == "";
    } else {
      FirstLineEmpty(source, width);
      LaterLinesNonEmpty(source, width);
      LinesJoinToSource(source, width);
    }
  }

  /** Each group joined by single spaces. */
  function Joined(groups: seq<seq<string>>): (lines: seq<string>)
    ensures |lines| == |groups|
  {
    seq(|groups|, k requires 0 <= k < |groups| => Join(groups[k], ' '))
  }

  /** Every word the wrapper places is a non-empty, unpadded word without
      spaces, when the source is well spaced. */
  ghost predicate GoodWords(groups: seq<seq<string>>) {
    forall k, j :: 0 <= k < |groups| && 0 <= j < |groups[k]| ==>
      groups[k][j] != [] && Unpadded(groups[k][j]) && ' ' !in groups[k][j]
  }

  lemma WellSpacedGroups(source: string, width: nat)
    requires WellSpaced(source)
    ensures GoodWords(Groups(Split(source, ' '), width))
  {
    var words := Split(source, ' ');
    var groups := Groups(words, width);
    PackShape(words, width);
    forall k, j | 0 <= k < |groups| && 0 <= j < |groups[k]|
      ensures groups[k][j] != [] && Unpadded(groups[k][j]) && ' ' !in groups[k][j]
    {
      InFlatten(groups, k, j);
    }
  }

  /** For a well-spaced source, trimming leaves each line as its run of words
      joined by single spaces (line 0 empty when its run is). */
  lemma TrimmedLines(source: string, width: nat)
    requires WellSpaced(source)
    ensures WrappedLines(source, width) == Joined(Groups(Split(source, ' '), width))
  {
    var words := Split(source, ' ');
    var raw, groups := Pack(words, width), Groups(words, width);
    PackShape(words, width);
    WellSpacedGroups(source, width);
    forall k | 0 <= k < |raw|
      ensures Trim(raw[k]) == Join(groups[k], ' ')
    {
      if groups[k] != [] {
        assert forall j :: 0 <= j < |groups[k]| ==> groups[k][j] != [] && Unpadded(groups[k][j]);
        JoinUnpadded(groups[k]);
        TrimUnpadded(Join(groups[k], ' '));
        if k == 0 {
          SpacePrefixedJoin(groups[0]);
        }
      }
    }
  }

  /** For a well-spaced source: the runs of words, their words and the
      trimmed lines. */
  lemma WrapFacts(source: string, width: nat)
    requires WellSpaced(source)
    ensures var words := Split(source, ' ');
      && Shaped(Pack(words, width), Groups(words, width), words)
      && GoodWords(Groups(words, width))
      && WrappedLines(source, width) == Joined(Groups(words, width))
  {
    var words := Split(source, ' ');
    PackShape(words, width);
    WellSpacedGroups(source, width);
    TrimmedLines(source, width);
  }

  /** Line 0 of a non-empty well-spaced source is empty exactly when the
      first word is wider than the width. */
  lemma FirstLineEmpty(source: string, width: nat)
    requires source != "" && WellSpaced(source)
    ensures WrappedLines(source, width)[0] == "" <==> |Split(source, ' ')[0]| > width
  {
    var words := Split(source, ' ');
    var groups := Groups(words, width);
    WrapFacts(source, width);
    FirstGroup(words, width);
    assert words[0] in words;
    if groups[0] != [] {
      JoinUnpadded(groups[0]);
    }
  }

  /** Only line 0 can be empty. */
  lemma LaterLinesNonEmpty(source: string, width: nat)
    requires WellSpaced(source)
    ensures var lines := WrappedLines(source, width);
      forall k :: 1 <= k < |lines| ==> lines[k] != ""
  {
    var words := Split(source, ' ');
    var groups := Groups(words, width);
    WrapFacts(source, width);
    forall k | 1 <= k < |groups|
      ensures Join(groups[k], ' ') != ""
    {
      JoinUnpadded(groups[k]);
    }
  }

  lemma JoinedTail(groups: seq<seq<string>>)
    requires groups != []
    ensures Joined(groups)[1..] == Joined(groups[1..])
  {
  }

  /** Dropping an empty first run does not change the words. */
  lemma FlattenDropEmpty(groups: seq<seq<string>>)
    requires groups != [] && groups[0] == []
    ensures Flatten(groups[1..]) == Flatten(groups)
  {
    assert groups == [groups[0]] + groups[1..];
    FlattenConcat([groups[0]], groups[1..]);
    assert DropLast([groups[0]]) == [];
  }

  /** A sequence of runs without its first run when that one is empty. */
  function DropEmptyHead<T>(runs: seq<seq<T>>): seq<seq<T>>
    requires runs != []
  {
    if runs[0] == [] then runs[1..] else runs
  }

  /** The runs of words that remain once an empty run 0 is dropped are all
      non-empty and are, in order, all the words. */
  lemma RestWords(source: string, width: nat)
    requires source != "" && WellSpaced(source)
    ensures var words := Split(source, ' ');
      var rest := DropEmptyHead(Groups(words, width));
      && rest != []
      && Flatten(rest) == words
      && forall k :: 0 <= k < |rest| ==> rest[k] != []
  {
    var words := Split(source, ' ');
    var groups := Groups(words, width);
    PackShape(words, width);
    if groups[0] == [] {
      FlattenDropEmpty(groups);
    }
  }

  /** Dropping an empty line 0 drops exactly the empty run 0. */
  lemma RestLines(source: string, width: nat)
    requires source != "" && WellSpaced(source)
    ensures DropEmptyHead(WrappedLines(source, width)) == Joined(DropEmptyHead(Groups(Split(source, ' '), width)))
  {
    var words := Split(source, ' ');
    var groups := Groups(words, width);
    TrimmedLines(source, width);
    FirstLineEmpty(source, width);
    FirstGroup(words, width);
    if groups[0] == [] {
      JoinedTail(groups);
    }
  }

  /** The lines joined by single spaces, without an empty line 0, are the
      source again. */
  lemma LinesJoinToSource(source: string, width: nat)
    requires source != "" && WellSpaced(source)
    ensures var lines := WrappedLines(source, width);
      Join(if lines[0] == "" then lines[1..] else lines, ' ') == source
  {
    var rest := DropEmptyHead(Groups(Split(source, ' '), width));
    RestWords(source, width);
    RestLines(source, width);
    JoinGroups(rest);
    JoinSplit(source, ' ');
  }

  /** No line is split inside a word, and every line that holds two or more
      words is at most one character over the width; line 0 is within it. */
  lemma WrapBound(source: string, width: nat)
    requires source == "" || WellSpaced(source)
    ensures var lines := WrappedLines(source, width);
      && |lines[0]| <= width
      && (forall k :: 1 <= k < |lines| && ' ' in lines[k] ==> |lines[k]| <= width + 1)
      && forall k, w :: 0 <= k < |lines| && lines[k] != "" && w in Split(lines[k], ' ') ==> w in Split(source, ' ')
  {
    if source == "" {
      WrapRoundTrip(source, width);
    } else {
      LineLengths(source, width);
      WordsUnsplit(source, width);
    }
  }

  lemma LineLengths(source: string, width: nat)
    requires WellSpaced(source)
    ensures var lines := WrappedLines(source, width);
      && |lines[0]| <= width
      && forall k :: 1 <= k < |lines| && ' ' in lines[k] ==> |lines[k]| <= width + 1
  {
    var words := Split(source, ' ');
    var groups := Groups(words, width);
    var lines := WrappedLines(source, width);
    WrapFacts(source, width);
    PackBounds(words, width);
    if groups[0] != [] {
      SpacePrefixedJoin(groups[0]);
    }
    forall k | 1 <= k < |lines| && |groups[k]| == 1
      ensures ' ' !in lines[k]
    {
      assert lines[k] == groups[k][0];
    }
  }

  lemma WordsUnsplit(source: string, width: nat)
    requires WellSpaced(source)
    ensures var lines := WrappedLines(source, width);
      forall k, w :: 0 <= k < |lines| && lines[k] != "" && w in Split(lines[k], ' ') ==> w in Split(source, ' ')
  {
    var words := Split(source, ' ');
    var groups := Groups(words, width);
    var lines := WrappedLines(source, width);
    assert Flatten(groups) == words && lines == Joined(groups) && GoodWords(groups) by {
      PackShape(words, width);
      TrimmedLines(source, width);
      WellSpacedGroups(source, width);
    }
    forall k, w | 0 <= k < |lines| && lines[k] != "" && w in Split(lines[k], ' ')
      ensures w in words
    {
      WordOfLine(groups, k, w);
    }
  }

  lemma WordOfLine(groups: seq<seq<string>>, k: nat, w: string)
    requires GoodWords(groups)
    requires k < |groups| && groups[k] != [] && w in Split(Join(groups[k], ' '), ' ')
    ensures w in Flatten(groups)
  {
    SplitJoin(groups[k], ' ');
    var j :| 0 <= j < |groups[k]| && groups[k][j] == w;
    InFlatten(groups, k, j);
  }

  lemma ExampleSplit()
    ensures Split("abcde ab cd", ' ') == ["abcde", "ab", "cd"]
  {
    var words: seq<string> := ["abcde", "ab", "cd"];
    var w2: seq<string> := ["abcde", "ab"];
    assert DropLast(words) == w2;
    assert DropLast(w2) == ["abcde"];
    assert Join(w2, ' ') == "abcde ab";
    assert Join(words, ' ') == "abcde ab cd";
    SplitJoin(words, ' ');
  }

  lemma ExamplePack()
    ensures Pack(["abcde", "ab", "cd"], 4) == ["", "abcde", "ab cd"]
  {
    var words: seq<string> := ["abcde", "ab", "cd"];
    var p0: seq<string> := [""];
    var p1: seq<string> := ["", "abcde"];
    var p2: seq<string> := ["", "abcde", "ab"];
    assert Pack(["abcde"], 4) == p1 by {
      assert DropLast(["abcde"]) == [];
      assert PackStep(p0, "abcde", 4) == p1;
    }
    assert Pack(["abcde", "ab"], 4) == p2 by {
      assert DropLast(["abcde", "ab"]) == ["abcde"];
      assert PackStep(p1, "ab", 4) == p2;
    }
    assert DropLast(words) == ["abcde", "ab"];
    assert Pack(words, 4) == PackStep(p2, "cd", 4);
    assert !WouldExceedLineLength(|Last(p2)|, |"cd"|, 4);
    assert PackStep(p2, "cd", 4) == DropLast(p2) + ["ab" + " " + "cd"];
    assert DropLast(p2) == ["", "abcde"];
    assert "ab" + " " + "cd" == "ab cd";
  }

  /** Both quirks on one input: with width 4, "abcde ab cd" gives an empty
      line 0 (the first word is too wide) and a last line of 5 characters,
      one over the width. */
  lemma WidthPlusOneExample()
    ensures WrappedLines("abcde ab cd", 4) == ["", "abcde", "ab cd"]
  {
    ExampleSplit();
    ExamplePack();
    var raw: seq<string> := ["", "abcde", "ab cd"];
    forall k | 0 <= k < |raw|
      ensures Trim(raw[k]) == raw[k]
    {
      ExampleTrims();
      assert k == 0 || k == 1 || k == 2;
    }
    WrappedUntrimmed("abcde ab cd", 4);
  }

  /** When trimming changes no raw line, the lines are the raw lines. */
  lemma WrappedUntrimmed(source: string, width: nat)
    requires var raw := Pack(Split(source, ' '), width);
      forall k :: 0 <= k < |raw| ==> Trim(raw[k]) == raw[k]
    ensures WrappedLines(source, width) == Pack(Split(source, ' '), width)
  {
  }

  lemma ExampleTrims()
    ensures Trim("") == "" && Trim("abcde") == "abcde" && Trim("ab cd") == "ab cd"
  {
    TrimUnpadded("");
    TrimUnpadded("abcde");
    TrimUnpadded("ab cd");
  }
}

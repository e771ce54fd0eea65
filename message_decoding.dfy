/** The body of `decode`: the source is wrapped into lines, each line goes
    through the decode pass, the counters are summed over the whole message,
    the decoded lines are joined by line breaks and the decode rate is
    computed. */
module MessageDecoding {
  import opened Text
  import opened Settings
  import opened Wrapping
  import opened LineDecoding

  /** The decode rate: a whole percentage, or NaN, which is what the division
      of the original gives when the message has no eligible character. */
  datatype RateValue = Percent(p: nat) | NotANumber

  /** `Math.round((decoded / eligible) * 100)` in exact integer arithmetic,
      halves rounded up. The original computes in floating point, where a
      quotient that is exactly a half in exact arithmetic can come out just
      below it, so the two can differ by one on such inputs. */
  function DecodeRate(decoded: nat, eligible: nat): (r: RateValue)
    ensures r == NotANumber <==> eligible == 0
  {
    if eligible == 0 then NotANumber else Percent((200 * decoded + eligible) / (2 * eligible))
  }

  /** The rate is the percentage nearest to `100 * decoded / eligible` (a
      half rounded up), and lies between 0 and 100 when no more letters are
      decoded than are eligible. */
  lemma RateIsNearestPercent(decoded: nat, eligible: nat)
    requires eligible > 0
    ensures var r := DecodeRate(decoded, eligible);
      && r.Percent?
      && (2 * r.p - 1) * eligible <= 200 * decoded < (2 * r.p + 1) * eligible
      && (decoded <= eligible ==> r.p <= 100)
  {
    var p := (200 * decoded + eligible) / (2 * eligible);
    var m := (200 * decoded + eligible) % (2 * eligible);
    assert 200 * decoded + eligible == p * (2 * eligible) + m && 0 <= m < 2 * eligible;
    var q := 2 * p * eligible;
    assert p * (2 * eligible) == q;
    assert (2 * p - 1) * eligible == q - eligible;
    assert (2 * p + 1) * eligible == q + eligible;
    if decoded <= eligible {
      PercentBound(p, decoded, eligible);
    }
  }

  /** A nearest percentage of a fraction at most one is at most 100. */
  lemma PercentBound(p: nat, decoded: nat, eligible: nat)
    requires eligible > 0 && decoded <= eligible
    requires (2 * p - 1) * eligible <= 200 * decoded
    ensures p <= 100
  {
  }

  /** The decoded lines: each wrapped line through the decode pass. */
  function DecodedLines(lines: seq<string>, dict: map<char, char>, cfg: Config): (decoded: seq<string>)
    ensures |decoded| == |lines|
  {
    if lines == [] then []
    else DecodedLines(DropLast(lines), dict, cfg) + [RenderLine(LinePieces(Last(lines), dict, cfg))]
  }

  /** The eligible characters of all lines. */
  function TotalEligible(lines: seq<string>, cfg: Config): nat {
    if lines == [] then 0 else TotalEligible(DropLast(lines), cfg) + CountEligible(Last(lines), cfg)
  }

  /** The known eligible characters of all lines; never more than the
      eligible ones. */
  function TotalKnown(lines: seq<string>, dict: map<char, char>, cfg: Config): (n: nat)
    ensures n <= TotalEligible(lines, cfg)
  {
    if lines == [] then 0 else TotalKnown(DropLast(lines), dict, cfg) + CountKnown(Last(lines), dict, cfg)
  }

  /** `decode` without the host: the displayed message, the two counters
      summed over all lines, and the decode rate. For a well-spaced source the
      counters are those of the whole source, whatever the width. */
  method DecodeMessage(source: string, dict: map<char, char>, cfg: Config)
    returns (message: string, eligible: nat, decoded: nat, rate: RateValue)
    ensures var lines := WrappedLines(source, cfg.width);
      && message == Join(DecodedLines(lines, dict, cfg), '\n')
      && eligible == TotalEligible(lines, cfg)
      && decoded == TotalKnown(lines, dict, cfg)
    ensures decoded <= eligible
    ensures rate == DecodeRate(decoded, eligible)
    ensures source == "" || WellSpaced(source) ==>
      eligible == CountEligible(source, cfg) && decoded == CountKnown(source, dict, cfg)
  {
    var lines := WrapLines(source, cfg.width);
    var decodedLines;
    decodedLines, eligible, decoded := DecodeLines(lines, dict, cfg);
    rate := DecodeRate(decoded, eligible);
    message := Join(decodedLines, '\n');
    if source == "" || WellSpaced(source) {
      TotalsOverSource(source, cfg.width, dict, cfg);
    }
  }

  /** The loop of `decode` over the wrapped lines: each line decoded in turn,
      its counters added to the running totals. */
  method DecodeLines(lines: seq<string>, dict: map<char, char>, cfg: Config)
    returns (decodedLines: seq<string>, eligible: nat, decoded: nat)
    ensures decodedLines == DecodedLines(lines, dict, cfg)
    ensures eligible == TotalEligible(lines, cfg)
    ensures decoded == TotalKnown(lines, dict, cfg)
  {
    decodedLines, eligible, decoded := [], 0, 0;
    for i := 0 to |lines|
      invariant decodedLines == DecodedLines(lines[..i], dict, cfg)
      invariant eligible == TotalEligible(lines[..i], cfg)
      invariant decoded == TotalKnown(lines[..i], dict, cfg)
    {
      var decodedLine, lineCharacterCount, lineDecodedCharacterCount := DecodeLine(lines[i], dict, cfg);
      TotalsStep(lines, i, dict, cfg);
      decodedLines := decodedLines + [decodedLine];
      eligible := eligible + lineCharacterCount;
      decoded := decoded + lineDecodedCharacterCount;
    }
    assert lines[..|lines|] == lines;
  }

  lemma TotalsStep(lines: seq<string>, i: nat, dict: map<char, char>, cfg: Config)
    requires i < |lines|
    ensures TotalEligible(lines[..i + 1], cfg) == TotalEligible(lines[..i], cfg) + CountEligible(lines[i], cfg)
    ensures TotalKnown(lines[..i + 1], dict, cfg) == TotalKnown(lines[..i], dict, cfg) + CountKnown(lines[i], dict, cfg)
    ensures DecodedLines(lines[..i + 1], dict, cfg)
         == DecodedLines(lines[..i], dict, cfg) + [RenderLine(LinePieces(lines[i], dict, cfg))]
  {
    assert DropLast(lines[..i + 1]) == lines[..i] && Last(lines[..i + 1]) == lines[i];
  }

  /** The totals of lines are the counts of the lines joined by spaces, since
      a space is never eligible. */
  lemma {:induction false} TotalsOfJoin(lines: seq<string>, dict: map<char, char>, cfg: Config)
    ensures TotalEligible(lines, cfg) == CountEligible(Join(lines, ' '), cfg)
    ensures TotalKnown(lines, dict, cfg) == CountKnown(Join(lines, ' '), dict, cfg)
  {
    if |lines| == 1 {
      assert DropLast(lines) == [];
    } else if |lines| >= 2 {
      var init := DropLast(lines);
      TotalsOfJoin(init, dict, cfg);
      CountsAdditive(Join(init, ' ') + [' '], Last(lines), dict, cfg);
      CountsAdditive(Join(init, ' '), [' '], dict, cfg);
      assert DropLast([' ']) == [];
    }
  }

  /** For a well-spaced source, the totals over the wrapped lines are the
      counts over the whole source: every occurrence of a letter counts, and
      the width does not matter. */
  lemma TotalsOverSource(source: string, width: nat, dict: map<char, char>, cfg: Config)
    requires source == "" || WellSpaced(source)
    ensures TotalEligible(WrappedLines(source, width), cfg) == CountEligible(source, cfg)
    ensures TotalKnown(WrappedLines(source, width), dict, cfg) == CountKnown(source, dict, cfg)
  {
    var lines := WrappedLines(source, width);
    WrapRoundTrip(source, width);
    TotalsOfJoin(lines, dict, cfg);
    if lines[0] == "" && |lines| >= 2 {
      JoinConcat([lines[0]], lines[1..], ' ');
      assert lines == [lines[0]] + lines[1..];
      assert Join(lines, ' ') == [' '] + source;
      CountsAdditive([' '], source, dict, cfg);
      assert DropLast([' ']) == [];
    }
  }

  /** An empty source gives one empty line and no rate: 0/0 is NaN. */
  lemma EmptySource(width: nat, dict: map<char, char>, cfg: Config)
    ensures WrappedLines("", width) == [""]
    ensures TotalEligible(WrappedLines("", width), cfg) == 0
    ensures DecodeRate(TotalKnown(WrappedLines("", width), dict, cfg), 0) == NotANumber
  {
    WrapRoundTrip("", width);
    TotalsOverSource("", width, dict, cfg);
  }

  const ExampleConfig := Config(50, 5, 0, {})
  const ExampleDictionary := map['y' := 'a']

  /** The help text's example: "Dra lyd lycd y cbamm" with only `y` learned
      has 3 known occurrences among 16 eligible letters (the four spaces are
      not eligible), a rate of 19. */
  lemma RateExample()
    ensures CountEligible("Dra lyd lycd y cbamm", ExampleConfig) == 16
    ensures CountKnown("Dra lyd lycd y cbamm", ExampleDictionary, ExampleConfig) == 3
    ensures DecodeRate(3, 16) == Percent(19)
  {
    assert "Dra lyd lycd y " + "cbamm" == "Dra lyd lycd y cbamm";
    ExampleFourWords();
    ExampleWord4();
    CountsAdditive("Dra lyd lycd y ", "cbamm", ExampleDictionary, ExampleConfig);
    ExampleRate();
  }

  /** The counts of each word of the example, with the space after it. */
  lemma ExampleWord0()
    ensures CountEligible("Dra ", ExampleConfig) == 3
    ensures CountKnown("Dra ", ExampleDictionary, ExampleConfig) == 0
  {
    ExamplePiece("Dra ", 3, 0);
  }

  lemma ExampleWord1()
    ensures CountEligible("lyd ", ExampleConfig) == 3
    ensures CountKnown("lyd ", ExampleDictionary, ExampleConfig) == 1
  {
    ExamplePiece("lyd ", 3, 1);
  }

  lemma ExampleWord2()
    ensures CountEligible("lycd ", ExampleConfig) == 4
    ensures CountKnown("lycd ", ExampleDictionary, ExampleConfig) == 1
  {
    ExamplePiece("lycd ", 4, 1);
  }

  lemma ExampleWord3()
    ensures CountEligible("y ", ExampleConfig) == 1
    ensures CountKnown("y ", ExampleDictionary, ExampleConfig) == 1
  {
    ExamplePiece("y ", 1, 1);
  }

  lemma ExampleWord4()
    ensures CountEligible("cbamm", ExampleConfig) == 5
    ensures CountKnown("cbamm", ExampleDictionary, ExampleConfig) == 0
  {
    ExamplePiece("cbamm", 5, 0);
  }

  /** The counts of the example's first words, with their spaces, built up
      one word at a time. */
  lemma ExampleTwoWords()
    ensures CountEligible("Dra lyd ", ExampleConfig) == 6
    ensures CountKnown("Dra lyd ", ExampleDictionary, ExampleConfig) == 1
  {
    assert "Dra " + "lyd " == "Dra lyd ";
    ExampleWord0();
    ExampleWord1();
    CountsAdditive("Dra ", "lyd ", ExampleDictionary, ExampleConfig);
  }

  lemma ExampleThreeWords()
    ensures CountEligible("Dra lyd lycd ", ExampleConfig) == 10
    ensures CountKnown("Dra lyd lycd ", ExampleDictionary, ExampleConfig) == 2
  {
    assert "Dra lyd " + "lycd " == "Dra lyd lycd ";
    ExampleTwoWords();
    ExampleWord2();
    CountsAdditive("Dra lyd ", "lycd ", ExampleDictionary, ExampleConfig);
  }

  lemma ExampleFourWords()
    ensures CountEligible("Dra lyd lycd y ", ExampleConfig) == 11
    ensures CountKnown("Dra lyd lycd y ", ExampleDictionary, ExampleConfig) == 3
  {
    assert "Dra lyd lycd " + "y " == "Dra lyd lycd y ";
    ExampleThreeWords();
    ExampleWord3();
    CountsAdditive("Dra lyd lycd ", "y ", ExampleDictionary, ExampleConfig);
  }

  /** The counts of one word of the example, and its space: its letters
      are eligible and its `y`s are known. */
  lemma ExamplePiece(w: string, letters: nat, ys: nat)
    requires forall c :: c in w ==> c == ' ' || IsAsciiLetter(c)
    requires |w| - multiset(w)[' '] == letters && multiset(w)['y'] == ys
    ensures CountEligible(w, ExampleConfig) == letters
    ensures CountKnown(w, ExampleDictionary, ExampleConfig) == ys
  {
    EligibleAreNonSpaces(w, ExampleConfig);
    KnownAreOccurrences(w, 'y', 'a', ExampleConfig);
  }

  lemma ExampleRate()
    ensures DecodeRate(3, 16) == Percent(19)
  {
  }
}

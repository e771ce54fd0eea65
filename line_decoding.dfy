/** The per-line decode pass: one line of coded text is scanned character by
    character, known letters are replaced by what they stand for, and a colour
    token is put in front of a letter wherever the line passes from coded to
    decoded text or back. */
module LineDecoding {
  import opened Text
  import opened Settings

  /** Whether the last decodable letter seen on the line was known
      (`'decode'`) or unknown (`'code'`); unset before the first one. */
  datatype Context = Unset | Code | Decode

  /** The two bits of the case number: bit 1 says the letter is known, bit 0
      that the context is (`0b11` known in known context, … `0b00` unknown in
      unknown context). */
  datatype Case = Case(letterKnown: bool, contextKnown: bool)

  /** What one input character becomes: the character alone, or a colour
      token `\c[n]` followed by the character. */
  datatype Piece = Plain(letter: char) | Colored(colour: nat, letter: char)

  /** The built-in characters that are never decoded. */
  const NoDecoding: set<char> := {' ', ',', '.', ';', '?', '!', '\''}

  /** `isCharacterDecodable`: neither a built-in nor a configured
      non-decode character. (The original tests the loop variable of the
      caller rather than its own parameter; the two are the same character
      at every call.) */
  predicate IsCharacterDecodable(c: char, cfg: Config) {
    c !in NoDecoding && c !in cfg.otherNonDecode
  }

  /** `letterIsKnown`: the player has learned the letter. */
  predicate LetterIsKnown(c: char, dict: map<char, char>) {
    c in dict
  }

  /** `evaluateCase`: the case of a letter in a context. The first decodable
      letter of a line (unset context) is always given the context opposite
      to its own status, so that it gets a colour token. */
  function EvaluateCase(c: char, ctx: Context, dict: map<char, char>): (r: Case)
    ensures r.letterKnown <==> LetterIsKnown(c, dict)
    ensures ctx != Unset ==> (r.contextKnown <==> ctx == Decode)
    ensures ctx == Unset ==> r.contextKnown != r.letterKnown
  {
    var known := LetterIsKnown(c, dict);
    if known && ctx == Decode then Case(true, true)
    else if known && ctx == Code then Case(true, false)
    else if !known && ctx == Decode then Case(false, true)
    else if !known && ctx == Code then Case(false, false)
    else
      assert ctx == Unset;
      if known then Case(true, false) else Case(false, true)
  }

  /** `getNextLetter`: what one character becomes. A non-decodable character
      is kept as it is. A decodable one is shown decoded when known and coded
      otherwise, with a colour token (the decoded colour for a known letter,
      the coded colour for an unknown one) exactly when its status differs
      from the context, or the context is unset. */
  function GetNextLetter(c: char, ctx: Context, dict: map<char, char>, cfg: Config): (p: Piece)
    ensures !IsCharacterDecodable(c, cfg) ==> p == Plain(c)
    ensures p.letter == if IsCharacterDecodable(c, cfg) && c in dict then dict[c] else c
    ensures p.Colored? <==> IsCharacterDecodable(c, cfg) && (ctx == Unset || (ctx == Decode) != (c in dict))
    ensures p.Colored? ==> p.colour == if c in dict then cfg.decodedColor else cfg.codedColor
  {
    if !IsCharacterDecodable(c, cfg) then Plain(c)
    else
      match EvaluateCase(c, ctx, dict)
      case Case(true, true) => Plain(dict[c])
      case Case(true, false) => Colored(cfg.decodedColor, dict[c])
      case Case(false, true) => Colored(cfg.codedColor, c)
      case Case(false, false) => Plain(c)
  }

  /** The context after one more character: a decodable character sets it to
      its own status, any other character leaves it alone. */
  function NextContext(ctx: Context, c: char, dict: map<char, char>, cfg: Config): Context {
    if IsCharacterDecodable(c, cfg) then (if LetterIsKnown(c, dict) then Decode else Code) else ctx
  }

  /** The context once the characters of `s` have been scanned from an unset
      context. */
  function ContextAfter(s: string, dict: map<char, char>, cfg: Config): Context {
    if s == [] then Unset else NextContext(ContextAfter(DropLast(s), dict, cfg), Last(s), dict, cfg)
  }

  /** The pieces the decode pass produces for `s`, one per character. */
  function LinePieces(s: string, dict: map<char, char>, cfg: Config): (pieces: seq<Piece>)
    ensures |pieces| == |s|
  {
    if s == [] then []
    else
      var init := DropLast(s);
      LinePieces(init, dict, cfg) + [GetNextLetter(Last(s), ContextAfter(init, dict, cfg), dict, cfg)]
  }

  /** The number of decodable characters of `s`. */
  function CountEligible(s: string, cfg: Config): nat {
    if s == [] then 0
    else CountEligible(DropLast(s), cfg) + if IsCharacterDecodable(Last(s), cfg) then 1 else 0
  }

  /** The number of decodable characters of `s` the player knows; never more
      than the number of decodable ones. */
  function CountKnown(s: string, dict: map<char, char>, cfg: Config): (n: nat)
    ensures n <= CountEligible(s, cfg)
  {
    if s == [] then 0
    else
      CountKnown(DropLast(s), dict, cfg)
      + if IsCharacterDecodable(Last(s), cfg) && LetterIsKnown(Last(s), dict) then 1 else 0
  }

  /** The decimal digits of a colour index. */
  function DigitChar(d: nat): char
    requires d < 10
  {
    ('0' as int + d) as char
  }

  function NatToDecimal(n: nat): (r: string)
    ensures |r| >= 1 && forall i :: 0 <= i < |r| ==> '0' <= r[i] <= '9'
  {
    if n < 10 then [DigitChar(n)] else NatToDecimal(n / 10) + [DigitChar(n % 10)]
  }

  function DecimalValue(s: string): nat
    requires forall i :: 0 <= i < |s| ==> '0' <= s[i] <= '9'
  {
    if s == [] then 0 else DecimalValue(DropLast(s)) * 10 + (Last(s) as int - '0' as int)
  }

  /** The colour index written into a token can be read back. */
  lemma {:induction false} DecimalRoundTrip(n: nat)
    ensures DecimalValue(NatToDecimal(n)) == n
  {
    if n >= 10 {
      DecimalRoundTrip(n / 10);
      assert DropLast(NatToDecimal(n)) == NatToDecimal(n / 10);
    }
  }

  /** The text of one piece: a colour token is `\c[` , the index, `]`. */
  function Render(p: Piece): string {
    match p
    case Plain(c) => [c]
    case Colored(n, c) => "\\c[" + NatToDecimal(n) + "]" + [c]
  }

  /** A rendered piece ends with its letter; a colour token in front of it is
      `\c[`, the colour index in decimal digits that read back as the
      index, and `]`. */
  lemma RenderedToken(p: Piece)
    ensures var r := Render(p);
      && |r| >= 1 && Last(r) == p.letter
      && (p.Plain? <==> |r| == 1)
      && (p.Colored? ==>
            && |r| >= 6 && r[..3] == "\\c[" && r[|r| - 2] == ']'
            && (forall i :: 3 <= i < |r| - 2 ==> '0' <= r[i] <= '9')
            && DecimalValue(r[3..|r| - 2]) == p.colour)
  {
    if p.Colored? {
      var r, digits := Render(p), NatToDecimal(p.colour);
      assert r == "\\c[" + digits + "]" + [p.letter];
      assert r[3..|r| - 2] == digits;
      DecimalRoundTrip(p.colour);
    }
  }

  /** The text of a line of pieces. */
  function RenderLine(pieces: seq<Piece>): string {
    if pieces == [] then "" else RenderLine(DropLast(pieces)) + Render(Last(pieces))
  }

  /** `decodeLine`: the decoded text of a line and its two counters. (The
      original computes each piece twice; the computation is pure, so once is
      the same.) */
  method DecodeLine(line: string, dict: map<char, char>, cfg: Config)
    returns (decodedLine: string, eligible: nat, decoded: nat)
    ensures decodedLine == RenderLine(LinePieces(line, dict, cfg))
    ensures eligible == CountEligible(line, cfg)
    ensures decoded == CountKnown(line, dict, cfg)
    ensures decoded <= eligible <= |line|
  {
    var outputBuffer := "";
    var currentContext := Unset;
    eligible, decoded := 0, 0;
    for i := 0 to |line|
      invariant outputBuffer == RenderLine(LinePieces(line[..i], dict, cfg))
      invariant currentContext == ContextAfter(line[..i], dict, cfg)
      invariant eligible == CountEligible(line[..i], cfg) <= i
      invariant decoded == CountKnown(line[..i], dict, cfg)
    {
      var letter := line[i];
      DecodeStep(line, i, dict, cfg);
      outputBuffer := outputBuffer + Render(GetNextLetter(letter, currentContext, dict, cfg));
      if IsCharacterDecodable(letter, cfg) {
        var playerKnowsLetter := LetterIsKnown(letter, dict);
        currentContext := if playerKnowsLetter then Decode else Code;
        eligible := eligible + 1;
        if playerKnowsLetter {
          decoded := decoded + 1;
        }
      }
    }
    assert line[..|line|] == line;
    decodedLine := outputBuffer;
  }

  /** One more character of the line: its piece is added, the context and
      the counters are updated by it alone. */
  lemma PrefixStep(line: string, i: nat, dict: map<char, char>, cfg: Config)
    requires i < |line|
    ensures var c, prefix := line[i], line[..i];
      && LinePieces(line[..i + 1], dict, cfg)
         == LinePieces(prefix, dict, cfg) + [GetNextLetter(c, ContextAfter(prefix, dict, cfg), dict, cfg)]
      && ContextAfter(line[..i + 1], dict, cfg) == NextContext(ContextAfter(prefix, dict, cfg), c, dict, cfg)
      && CountEligible(line[..i + 1], cfg)
         == CountEligible(prefix, cfg) + (if IsCharacterDecodable(c, cfg) then 1 else 0)
      && CountKnown(line[..i + 1], dict, cfg)
         == CountKnown(prefix, dict, cfg) + (if IsCharacterDecodable(c, cfg) && LetterIsKnown(c, dict) then 1 else 0)
  {
    assert DropLast(line[..i + 1]) == line[..i] && Last(line[..i + 1]) == line[i];
  }

  /** One more character of the line, as the loop of `decodeLine` sees it:
      the rendering of its piece is appended to the buffer. */
  lemma DecodeStep(line: string, i: nat, dict: map<char, char>, cfg: Config)
    requires i < |line|
    ensures var c, prefix := line[i], line[..i];
      var ctx := ContextAfter(prefix, dict, cfg);
      && RenderLine(LinePieces(line[..i + 1], dict, cfg))
         == RenderLine(LinePieces(prefix, dict, cfg)) + Render(GetNextLetter(c, ctx, dict, cfg))
      && ContextAfter(line[..i + 1], dict, cfg) == NextContext(ctx, c, dict, cfg)
      && CountEligible(line[..i + 1], cfg)
         == CountEligible(prefix, cfg) + (if IsCharacterDecodable(c, cfg) then 1 else 0)
      && CountKnown(line[..i + 1], dict, cfg)
         == CountKnown(prefix, dict, cfg) + (if IsCharacterDecodable(c, cfg) && LetterIsKnown(c, dict) then 1 else 0)
  {
    PrefixStep(line, i, dict, cfg);
    RenderLineSnoc(LinePieces(line[..i], dict, cfg),
      GetNextLetter(line[i], ContextAfter(line[..i], dict, cfg), dict, cfg));
  }

  lemma RenderLineSnoc(pieces: seq<Piece>, p: Piece)
    ensures RenderLine(pieces + [p]) == RenderLine(pieces) + Render(p)
  {
    assert DropLast(pieces + [p]) == pieces;
  }

  /** Piece i of a line is what character i becomes in the context left by
      the characters before it. */
  lemma {:induction false} LinePiecesAt(line: string, i: nat, dict: map<char, char>, cfg: Config)
    requires i < |line|
    ensures LinePieces(line, dict, cfg)[i] == GetNextLetter(line[i], ContextAfter(line[..i], dict, cfg), dict, cfg)
  {
    var init := DropLast(line);
    if i == |line| - 1 {
      assert init == line[..i];
    } else {
      LinePiecesAt(init, i, dict, cfg);
      assert init[..i] == line[..i];
    }
  }

  /** `j` is the last decodable character of `s`. */
  predicate LastDecodable(s: string, j: int, cfg: Config) {
    && 0 <= j < |s|
    && IsCharacterDecodable(s[j], cfg)
    && forall k :: j < k < |s| ==> !IsCharacterDecodable(s[k], cfg)
  }

  /** The context is unset exactly when no decodable character has been seen,
      and otherwise says whether the last decodable character was known. */
  lemma {:induction false} ContextCharacterized(s: string, dict: map<char, char>, cfg: Config)
    ensures ContextAfter(s, dict, cfg) == Unset <==> forall j :: 0 <= j < |s| ==> !IsCharacterDecodable(s[j], cfg)
    ensures forall j :: LastDecodable(s, j, cfg) ==>
      ContextAfter(s, dict, cfg) == if s[j] in dict then Decode else Code
  {
    if s != [] {
      var init := DropLast(s);
      ContextCharacterized(init, dict, cfg);
      assert forall j :: 0 <= j < |init| ==> init[j] == s[j];
      if IsCharacterDecodable(Last(s), cfg) {
        forall j | LastDecodable(s, j, cfg)
          ensures j == |s| - 1
        {
        }
      } else {
        forall j | LastDecodable(s, j, cfg)
          ensures LastDecodable(init, j, cfg)
        {
        }
      }
    }
  }

  /** A colour token is emitted exactly at the first decodable character of
      the line and wherever the known status differs from that of the
      previous decodable character. */
  lemma MarkupAtTransitions(line: string, i: nat, dict: map<char, char>, cfg: Config)
    requires i < |line|
    ensures (forall j :: 0 <= j < i ==> !IsCharacterDecodable(line[j], cfg)) ==>
      (LinePieces(line, dict, cfg)[i].Colored? <==> IsCharacterDecodable(line[i], cfg))
    ensures forall j :: LastDecodable(line[..i], j, cfg) ==>
      (LinePieces(line, dict, cfg)[i].Colored? <==>
         IsCharacterDecodable(line[i], cfg) && (line[j] in dict) != (line[i] in dict))
  {
    LinePiecesAt(line, i, dict, cfg);
    ContextCharacterized(line[..i], dict, cfg);
    assert forall j :: 0 <= j < i ==> line[..i][j] == line[j];
  }

  /** A non-decodable character is emitted unchanged and leaves the context
      and both counters as they were. */
  lemma NonDecodablePassThrough(line: string, i: nat, dict: map<char, char>, cfg: Config)
    requires i < |line| && !IsCharacterDecodable(line[i], cfg)
    ensures LinePieces(line, dict, cfg)[i] == Plain(line[i])
    ensures ContextAfter(line[..i + 1], dict, cfg) == ContextAfter(line[..i], dict, cfg)
    ensures CountEligible(line[..i + 1], cfg) == CountEligible(line[..i], cfg)
    ensures CountKnown(line[..i + 1], dict, cfg) == CountKnown(line[..i], dict, cfg)
  {
    LinePiecesAt(line, i, dict, cfg);
    assert DropLast(line[..i + 1]) == line[..i];
  }

  /** The letter carried by each piece: the output without its colour tokens. */
  function VisibleLetters(pieces: seq<Piece>): (s: string)
    ensures |s| == |pieces|
  {
    seq(|pieces|, i requires 0 <= i < |pieces| => pieces[i].letter)
  }

  /** Letter-by-letter substitution of every known decodable letter. */
  function Substitute(line: string, dict: map<char, char>, cfg: Config): (s: string)
    ensures |s| == |line|
  {
    seq(|line|, i requires 0 <= i < |line| =>
      if IsCharacterDecodable(line[i], cfg) && line[i] in dict then dict[line[i]] else line[i])
  }

  /** Without its colour tokens, a decoded line is the coded line with every
      known decodable letter replaced by what it stands for. */
  lemma VisibleTextIsSubstitution(line: string, dict: map<char, char>, cfg: Config)
    ensures VisibleLetters(LinePieces(line, dict, cfg)) == Substitute(line, dict, cfg)
  {
    forall i | 0 <= i < |line|
      ensures LinePieces(line, dict, cfg)[i].letter == Substitute(line, dict, cfg)[i]
    {
      LinePiecesAt(line, i, dict, cfg);
    }
  }

  /** Both counters add up over a concatenation. */
  lemma {:induction false} CountsAdditive(a: string, b: string, dict: map<char, char>, cfg: Config)
    ensures CountEligible(a + b, cfg) == CountEligible(a, cfg) + CountEligible(b, cfg)
    ensures CountKnown(a + b, dict, cfg) == CountKnown(a, dict, cfg) + CountKnown(b, dict, cfg)
    decreases |b|
  {
    if b == [] {
      assert a + b == a;
    } else {
      CountsAdditive(a, DropLast(b), dict, cfg);
      assert DropLast(a + b) == a + DropLast(b);
      assert Last(a + b) == Last(b);
    }
  }

  predicate IsAsciiLetter(c: char) {
    'a' <= c <= 'z' || 'A' <= c <= 'Z'
  }

  /** For a text of ASCII letters and spaces, when no letter is configured as
      non-decodable, the eligible characters are all but the spaces. */
  lemma {:induction false} EligibleAreNonSpaces(s: string, cfg: Config)
    requires forall c :: c in s ==> c == ' ' || IsAsciiLetter(c)
    requires forall c :: c in cfg.otherNonDecode ==> !IsAsciiLetter(c)
    ensures CountEligible(s, cfg) == |s| - multiset(s)[' ']
  {
    if s != [] {
      var init := DropLast(s);
      assert forall c :: c in init ==> c in s;
      assert Last(s) in s;
      EligibleAreNonSpaces(init, cfg);
      assert s == init + [Last(s)];
      assert multiset(s) == multiset(init) + multiset{Last(s)};
    }
  }

  /** With one letter learned, the known count of a line is the number of
      occurrences of that letter: every occurrence counts, not each letter
      once. */
  lemma {:induction false} KnownAreOccurrences(s: string, coded: char, decoded: char, cfg: Config)
    requires IsCharacterDecodable(coded, cfg)
    ensures CountKnown(s, map[coded := decoded], cfg) == multiset(s)[coded]
  {
    if s != [] {
      var init := DropLast(s);
      KnownAreOccurrences(init, coded, decoded, cfg);
      assert s == init + [Last(s)];
      assert multiset(s) == multiset(init) + multiset{Last(s)};
    }
  }
}

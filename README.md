# Moose_Decode — a verified model of the decode engine

Moose_Decode is an RPG Maker MV plugin for substitution-cipher puzzles. The
player learns, one at a time, which letter a coded letter stands for. The
`MooseDecode` command then shows a coded message with every known letter
decoded. Colour tokens `\c[n]` mark where the text passes from coded to
decoded letters or back. The command also stores a decode rate: the
percentage of eligible letters the player can read.

This project models the engine behind that command, one module per part:

- `Text` (`text.dfy`): the host-language string operations the engine relies
  on (`split` on one character, `join`, `trim` with the ECMAScript
  white-space set), with their round-trip lemmas.
- `Settings` (`settings.dfy`): the configuration the engine reads, and the
  two name-to-number tables `getPositionValue` and `getBackgroundValue`.
- `Letters` (`letters.dfy`): the learned-letter dictionary as a class whose
  map field `learn` updates in place.
- `Wrapping` (`wrapping.dfy`): the greedy word wrapper of `decode`. The loop
  is a method proved against a specification function (`WrappedLines`). The
  lemmas give its shape: the round trip back to the source, the line widths,
  greediness, and when line 0 is empty.
- `LineDecoding` (`line_decoding.dfy`): the per-line pass. `evaluateCase` and
  `getNextLetter` are pure functions. `decodeLine` is a method whose loop
  keeps the output buffer, the context and the two counters equal to
  specification functions of the prefix scanned so far. The lemmas say where
  colour tokens appear, that punctuation passes through, and that the
  visible text is a letter-by-letter substitution.
- `MessageDecoding` (`message_decoding.dfy`): the body of `decode`. It wraps
  the source, decodes every line, sums the counters, joins the lines with
  line breaks and computes the rate.

Where the help text and the code disagree, the model follows the code:

- With no eligible character, the rate is `0/0`, which is NaN. It is
  modelled as `NotANumber`.
- The help text's example ("Dra lyd lycd y cbamm" with only `y` known) claims
  3 of 20 letters and 15%. Spaces are never eligible, so the code counts
  3 of 16 and rounds to 19% (`RateExample`). The dictionary key must be the
  lower-case `y`, because keys are matched exactly.
- Raw line 0 is built as a space before each word, and trimming removes that
  space. Later lines start with their first word. The width test does not
  count the joining space. So a later line of two or more words can be one
  character wider than the width (`WidthPlusOneExample`). Line 0 is left
  empty when the first word alone is wider than the width (`FirstLineEmpty`).

## Model

| member | source | states |
|---|---|---|
| Letters.Dictionary.constructor | Moose_Decode.js:167 | a new dictionary knows no letter |
| Letters.Dictionary.Learn | Moose_Decode.js:203-205 | after `learn`, the coded letter maps to the decoded one and is known; every other entry is unchanged, so every other letter is known exactly when it was before; no key is removed |
| Letters.LearnedLetterDecodes | Moose_Decode.js:293-314 | once a decodable letter is learned, decoding it shows the learned value, whatever the context |
| Letters.LearningRaisesKnownCount | Moose_Decode.js:270-277 | learning a letter never lowers a line's known count, and relearning an already known letter leaves it unchanged |
| Settings.PositionValue | Moose_Decode.js:337-343 | a position number is given exactly for "Top", "Middle" and "Bottom" (0, 1, 2); it names its position back; any other name gives none |
| Settings.PositionNameRoundTrip | Moose_Decode.js:337-343 | every position number 0..2 is reached from the name `PositionName` gives for it |
| Settings.BackgroundValue | Moose_Decode.js:345-351 | a background number is given exactly for "Opaque", "Transparent" and "Invisible" (0, 1, 2); any other name gives none |
| Settings.BackgroundNameRoundTrip | Moose_Decode.js:345-351 | every background number 0..2 is reached from the name `BackgroundName` gives for it |
| Text.Split | Moose_Decode.js:215 | `split(' ')` gives at least one part and no part contains the separator |
| Text.JoinSplit | Moose_Decode.js:215 | joining the parts of a split on the same separator gives the string back |
| Text.SplitJoin | Moose_Decode.js:215 | splitting a join of separator-free words gives the words back |
| Text.Trim | Moose_Decode.js:229 | `trim` removes leading and trailing white space (the ECMAScript set); its properties are stated by `TrimCutsWhitespace` and `TrimUnpadded` |
| Text.TrimCutsWhitespace | Moose_Decode.js:229 | the trimmed string is a contiguous slice of the input with no white space at either end, and everything cut off on either side is white space |
| Text.TrimUnpadded | Moose_Decode.js:229 | `trim` keeps an unpadded string and removes exactly the one space put in front of it |
| Text.Join | Moose_Decode.js:246 | `join` puts the separator between consecutive parts; its properties are stated by `JoinLength`, `JoinSplit` and `SplitJoin` |
| Text.JoinLength | Moose_Decode.js:246 | a join of n parts is as long as the parts together plus n-1 separators, and ends with the last part |
| Wrapping.WouldExceedLineLength | Moose_Decode.js:207-209 | a word would exceed the line exactly when the current length plus the word's length is greater than the width; the joining space is not counted (see `PackBounds`, `WidthPlusOneExample`) |
| Wrapping.WrapLines | Moose_Decode.js:215-229 | the wrapping loop with the trim that follows gives `WrappedLines`, the specification every wrapping lemma is about |
| Wrapping.PackShape | Moose_Decode.js:217-227 | the raw lines come from consecutive runs of the words: line 0 is its words each after a space, every later line is a non-empty run joined by single spaces, and the runs in order are all the words |
| Wrapping.PackBounds | Moose_Decode.js:207-227 | raw line 0 and every line with two or more words are at most one character over the width |
| Wrapping.PackGreedy | Moose_Decode.js:207-227 | a line is closed only because the first word of the next line would take it over the width |
| Wrapping.FirstGroup | Moose_Decode.js:218-223 | line 0 gets a word exactly when the first word is no wider than the width |
| Wrapping.FirstLineEmpty | Moose_Decode.js:215-229 | for a well-spaced source, line 0 is empty exactly when the first word is wider than the width |
| Wrapping.LaterLinesNonEmpty | Moose_Decode.js:221-229 | for a well-spaced source, every line after line 0 is non-empty |
| Wrapping.LinesJoinToSource | Moose_Decode.js:215-229 | the trimmed lines, less an empty line 0, joined by single spaces give the source back |
| Wrapping.WrapRoundTrip | Moose_Decode.js:215-229 | for an empty or well-spaced source: "" gives one empty line; only line 0 can be empty, exactly when the first word does not fit; the lines joined by spaces are the source |
| Wrapping.WrapBound | Moose_Decode.js:207-229 | line 0 is within the width; a later line with a space in it is at most one character over it; no word is split across lines |
| Wrapping.WidthPlusOneExample | Moose_Decode.js:215-229 | with width 4, "abcde ab cd" gives an empty line 0 and a 5-character line "ab cd" |
| LineDecoding.IsCharacterDecodable | Moose_Decode.js:288-290 | a character takes part in decoding exactly when it is neither in the fixed punctuation set nor among the configured extra non-decode characters (see `NonDecodablePassThrough`) |
| LineDecoding.LetterIsKnown | Moose_Decode.js:333-335 | a letter is known exactly when it is a key of the learned dictionary (see `Letters.Dictionary.Learn`, `Letters.LearnedLetterDecodes`) |
| LineDecoding.EvaluateCase | Moose_Decode.js:316-331 | the case's letter bit is whether the letter is known; in a set context its context bit is whether the context is decode; in an unset context it is the opposite of the letter bit |
| LineDecoding.GetNextLetter | Moose_Decode.js:293-314 | a non-decodable character is kept; a decodable one is shown decoded exactly when known; a colour token is added exactly when the context is unset or differs from the letter's status; the token uses the decoded colour for a known letter, else the coded colour |
| LineDecoding.LinePieces | Moose_Decode.js:264-267 | the decode pass gives one piece per input character |
| LineDecoding.CountKnown | Moose_Decode.js:270-277 | decoded letters never exceed eligible letters |
| LineDecoding.Render | Moose_Decode.js:305-312 | a piece is written as its letter, preceded for a coloured piece by a `\c[n]` token; its properties are stated by `RenderedToken` |
| LineDecoding.RenderedToken | Moose_Decode.js:305-312 | a rendered piece ends with its letter and is one character exactly when it is plain; a coloured piece starts with `\c[`, then decimal digits that read back as its colour index, then `]` before the letter |
| LineDecoding.NatToDecimal | Moose_Decode.js:307-309 | a colour index is written as a non-empty run of decimal digits |
| LineDecoding.DecimalRoundTrip | Moose_Decode.js:307-309 | the colour index written into a token reads back as the same number |
| LineDecoding.DecodeLine | Moose_Decode.js:253-286 | the loop's buffer is the rendering of the line's pieces; its counters are the eligible and the known eligible characters; decoded <= eligible <= line length |
| LineDecoding.LinePiecesAt | Moose_Decode.js:264-279 | piece i is what character i becomes in the context left by the characters before it |
| LineDecoding.ContextCharacterized | Moose_Decode.js:257-273 | the context is unset exactly when no decodable character has been seen; otherwise it is decode or code as the last decodable character was known or not |
| LineDecoding.MarkupAtTransitions | Moose_Decode.js:264-314 | a colour token appears exactly at the line's first decodable character and where the known status differs from that of the previous decodable character |
| LineDecoding.NonDecodablePassThrough | Moose_Decode.js:288-297 | a non-decodable character is emitted unchanged and leaves the context and both counters as they were |
| LineDecoding.VisibleTextIsSubstitution | Moose_Decode.js:293-314 | without colour tokens, the decoded line is the coded line with every known decodable letter replaced by its dictionary value |
| LineDecoding.CountsAdditive | Moose_Decode.js:259-277 | both line counters add up over a concatenation |
| LineDecoding.EligibleAreNonSpaces | Moose_Decode.js:270-277 | on text of ASCII letters and spaces, with no letter configured as non-decode, the eligible count is the number of characters other than spaces |
| LineDecoding.KnownAreOccurrences | Moose_Decode.js:270-277 | with exactly one decodable letter learned, the known count is the number of occurrences of that letter |
| MessageDecoding.DecodeRate | Moose_Decode.js:242 | the rate is NaN exactly when no character is eligible |
| MessageDecoding.RateIsNearestPercent | Moose_Decode.js:242 | the rate is the whole percentage nearest to 100·decoded/eligible (halves up), and at most 100 |
| MessageDecoding.DecodedLines | Moose_Decode.js:231-237 | one decoded line per wrapped line |
| MessageDecoding.TotalKnown | Moose_Decode.js:232-240 | the summed decoded count never exceeds the summed eligible count |
| MessageDecoding.DecodeLines | Moose_Decode.js:231-240 | the loop over the lines collects each line's decoding and sums both counters |
| MessageDecoding.DecodeMessage | Moose_Decode.js:211-246 | the message is the decoded wrapped lines joined by line breaks; the counters are the totals over the lines (decoded <= eligible); the rate is computed from them; for an empty or well-spaced source they are the counts over the whole source, whatever the width |
| MessageDecoding.TotalsOfJoin | Moose_Decode.js:235-240 | the totals over lines are the counts of the lines joined by spaces, since a space is never eligible |
| MessageDecoding.TotalsOverSource | Moose_Decode.js:215-240 | for an empty or well-spaced source, the totals over the wrapped lines are the counts over the source: every occurrence counts and the width does not matter |
| MessageDecoding.EmptySource | Moose_Decode.js:215-242 | an empty source gives one empty line, no eligible character and a NaN rate |
| MessageDecoding.RateExample | Moose_Decode.js:79-82 | "Dra lyd lycd y cbamm" with only `y` learned has 16 eligible letters, 3 of them known, and a rate of 19 |

## Left out

- Reading the plugin parameters (Moose_Decode.js:156-165) is host I/O. `Config` is the result. The line width and colour indices are taken as naturals. The additional non-decode characters are taken as a set of single characters.
- Saving and loading the dictionary with the game (Moose_Decode.js:170-183) is host I/O. Loading a save made before the plugin was installed makes the dictionary `undefined`; that is not modelled.
- The plugin-command dispatch (Moose_Decode.js:186-200) is host I/O. It calls `learn` with the first two command arguments, or calls `decode`.
- Reading the source from a game variable, storing the rate in another and showing the message window (Moose_Decode.js:212, 244, 248-250) are host I/O. `DecodeMessage` takes the source as a parameter and returns the message and the rate.
- `DecodeMessage` and `DecodeLine` take the learned letters as a map value, which is the `entries` of a `Letters.Dictionary`. Nothing runs concurrently with a decode, so no aliasing or update during a decode is modelled.
- Letters.Dictionary.Learn: keys and values are single characters. The original stores any command argument strings. A key of another length is stored but never matches a character of a line. A longer value would be emitted whole.
- MessageDecoding.DecodeRate: computed in exact integer arithmetic with halves rounded up. `Math.round` on a floating-point quotient can give one less when the exact quotient is a half that floating point represents just below it.
- LineDecoding.DecodeLine: the original calls `getNextLetter` twice per character and keeps the second result. The call is pure, so the model calls it once.
- LineDecoding.IsCharacterDecodable: the original tests the caller's loop variable `letter` instead of its own parameter. The two are the same character at every call, so the model tests its parameter.
- Strings are sequences of characters. The original's strings are UTF-16 code units, so a character outside the Basic Multilingual Plane is two units there. That difference is not modelled.
- The unused `sourceSplit` of `decode` (Moose_Decode.js:213) and the unused `codeName` parameter are not modelled.

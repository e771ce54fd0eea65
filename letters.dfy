/** The learned-letter dictionary: what the player has learned so far, as a
    map from a coded letter to the letter it stands for. */
module Letters {
  import opened Text
  import opened Settings
  import opened LineDecoding

  class Dictionary {
    var entries: map<char, char>

    /** A new session knows no letter. */
    constructor ()
      ensures entries == map[]
    {
      entries := map[];
    }

    /** `learn`: records that `coded` stands for `decoded`, replacing any
        earlier value for `coded`; no other entry changes and no key is
        ever removed. The learned letter is known afterwards and every other
        letter is exactly as known as before. */
    method Learn(coded: char, decoded: char)
      modifies this
      ensures entries == old(entries)[coded := decoded]
      ensures coded in entries && entries[coded] == decoded
      ensures entries.Keys == old(entries).Keys + {coded}
      ensures forall c :: c in old(entries) && c != coded ==> entries[c] == old(entries)[c]
      ensures LetterIsKnown(coded, entries)
      ensures forall c :: c != coded ==> (LetterIsKnown(c, entries) <==> LetterIsKnown(c, old(entries)))
    {
      entries := entries[coded := decoded];
    }
  }

  /** Once a letter is learned, each decodable occurrence of it is shown as
      what it was learned to stand for, whatever the context. */
  lemma LearnedLetterDecodes(dict: map<char, char>, coded: char, decoded: char, ctx: Context, cfg: Config)
    requires IsCharacterDecodable(coded, cfg)
    ensures GetNextLetter(coded, ctx, dict[coded := decoded], cfg).letter == decoded
  {
  }

  /** Learning a letter never lowers the number of known letters of a line,
      leaves the number of eligible ones alone, and changes nothing when the
      letter was already known. */
  lemma {:induction false} LearningRaisesKnownCount(s: string, dict: map<char, char>, coded: char, decoded: char, cfg: Config)
    ensures CountKnown(s, dict, cfg) <= CountKnown(s, dict[coded := decoded], cfg)
    ensures coded in dict ==> CountKnown(s, dict, cfg) == CountKnown(s, dict[coded := decoded], cfg)
  {
    if s != [] {
      LearningRaisesKnownCount(DropLast(s), dict, coded, decoded, cfg);
    }
  }
}

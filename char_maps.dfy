/** The fixed character tables of the char-RNN sample (`SampleCharRNNMaps`):
    the vocabulary the trained model uses, one index per character. */
module CharMaps {
  import opened Results

  /** `params.vocabSize`. */
  const VocabSize: nat := 65

  /** `charToID.at(c)`: the vocabulary index of `c`, or `None` where the
      map has no entry and `at` throws. The cases are the map's 65 pairs. */
  function CharToId(c: char): (id: Option<nat>)
    ensures id.Some? ==> id.value < VocabSize
  {
    match c
    case '\n' => Some(0) case '!' => Some(1) case ' ' => Some(2) case '$' => Some(3)
    case '\'' => Some(4) case '&' => Some(5) case '-' => Some(6) case ',' => Some(7)
    case '.' => Some(8) case '3' => Some(9) case ';' => Some(10) case ':' => Some(11)
    case '?' => Some(12) case 'A' => Some(13) case 'C' => Some(14) case 'B' => Some(15)
    case 'E' => Some(16) case 'D' => Some(17) case 'G' => Some(18) case 'F' => Some(19)
    case 'I' => Some(20) case 'H' => Some(21) case 'K' => Some(22) case 'J' => Some(23)
    case 'M' => Some(24) case 'L' => Some(25) case 'O' => Some(26) case 'N' => Some(27)
    case 'Q' => Some(28) case 'P' => Some(29) case 'S' => Some(30) case 'R' => Some(31)
    case 'U' => Some(32) case 'T' => Some(33) case 'W' => Some(34) case 'V' => Some(35)
    case 'Y' => Some(36) case 'X' => Some(37) case 'Z' => Some(38) case 'a' => Some(39)
    case 'c' => Some(40) case 'b' => Some(41) case 'e' => Some(42) case 'd' => Some(43)
    case 'g' => Some(44) case 'f' => Some(45) case 'i' => Some(46) case 'h' => Some(47)
    case 'k' => Some(48) case 'j' => Some(49) case 'm' => Some(50) case 'l' => Some(51)
    case 'o' => Some(52) case 'n' => Some(53) case 'q' => Some(54) case 'p' => Some(55)
    case 's' => Some(56) case 'r' => Some(57) case 'u' => Some(58) case 't' => Some(59)
    case 'w' => Some(60) case 'v' => Some(61) case 'y' => Some(62) case 'x' => Some(63)
    case 'z' => Some(64)
    case _ => None
  }

  /** `idToChar`: vocabulary index to character, row by row as in the
      source. */
  const IdToChar: seq<char> :=
    ['\n', '!', ' ', '$', '\'', '&', '-', ','] +
    ['.', '3', ';', ':', '?', 'A', 'C', 'B', 'E', 'D', 'G', 'F', 'I', 'H', 'K'] +
    ['J', 'M', 'L', 'O', 'N', 'Q', 'P', 'S', 'R', 'U', 'T', 'W', 'V', 'Y', 'X'] +
    ['Z', 'a', 'c', 'b', 'e', 'd', 'g', 'f', 'i', 'h', 'k', 'j', 'm', 'l', 'o'] +
    ['n', 'q', 'p', 's', 'r', 'u', 't', 'w', 'v', 'y', 'x', 'z']

  // `CharToId(IdToChar[i]) == Some(i)`, checked eight indices at a time.

  lemma IdsRoundTripIn0(i: nat)
    requires 0 <= i < 8
    ensures CharToId(IdToChar[i]) == Some(i)
  {
    assert i == 0 || i == 1 || i == 2 || i == 3 || i == 4 || i == 5 || i == 6 || i == 7;
  }

  lemma IdsRoundTripIn8(i: nat)
    requires 8 <= i < 16
    ensures CharToId(IdToChar[i]) == Some(i)
  {
    assert i == 8 || i == 9 || i == 10 || i == 11 || i == 12 || i == 13 || i == 14 || i == 15;
  }

  lemma IdsRoundTripIn16(i: nat)
    requires 16 <= i < 24
    ensures CharToId(IdToChar[i]) == Some(i)
  {
    assert i == 16 || i == 17 || i == 18 || i == 19 || i == 20 || i == 21 || i == 22 || i == 23;
  }

  lemma IdsRoundTripIn24(i: nat)
    requires 24 <= i < 32
    ensures CharToId(IdToChar[i]) == Some(i)
  {
    assert i == 24 || i == 25 || i == 26 || i == 27 || i == 28 || i == 29 || i == 30 || i == 31;
  }

  lemma IdsRoundTripIn32(i: nat)
    requires 32 <= i < 40
    ensures CharToId(IdToChar[i]) == Some(i)
  {
    assert i == 32 || i == 33 || i == 34 || i == 35 || i == 36 || i == 37 || i == 38 || i == 39;
  }

  lemma IdsRoundTripIn40(i: nat)
    requires 40 <= i < 48
    ensures CharToId(IdToChar[i]) == Some(i)
  {
    assert i == 40 || i == 41 || i == 42 || i == 43 || i == 44 || i == 45 || i == 46 || i == 47;
  }

  lemma IdsRoundTripIn48(i: nat)
    requires 48 <= i < 56
    ensures CharToId(IdToChar[i]) == Some(i)
  {
    assert i == 48 || i == 49 || i == 50 || i == 51 || i == 52 || i == 53 || i == 54 || i == 55;
  }

  lemma IdsRoundTripIn56(i: nat)
    requires 56 <= i < 64
    ensures CharToId(IdToChar[i]) == Some(i)
  {
    assert i == 56 || i == 57 || i == 58 || i == 59 || i == 60 || i == 61 || i == 62 || i == 63;
  }

  lemma IdsRoundTripIn64(i: nat)
    requires 64 <= i < 65
    ensures CharToId(IdToChar[i]) == Some(i)
  {
    assert i == 64;
  }

  /** The index table has one entry per vocabulary index. */
  lemma VocabularySize()
    ensures |IdToChar| == VocabSize
  {
  }

  /** Index to character to index is the identity. */
  lemma IdToCharToId(i: nat)
    requires i < VocabSize
    ensures CharToId(IdToChar[i]) == Some(i)
  {
    if i < 8 { IdsRoundTripIn0(i); }
    else if i < 16 { IdsRoundTripIn8(i); }
    else if i < 24 { IdsRoundTripIn16(i); }
    else if i < 32 { IdsRoundTripIn24(i); }
    else if i < 40 { IdsRoundTripIn32(i); }
    else if i < 48 { IdsRoundTripIn40(i); }
    else if i < 56 { IdsRoundTripIn48(i); }
    else if i < 64 { IdsRoundTripIn56(i); }
    else { IdsRoundTripIn64(i); }
  }

  /** Character to index to character is the identity. */
  lemma CharToIdToChar(c: char)
    requires CharToId(c).Some?
    ensures CharToId(c).value < |IdToChar| && IdToChar[CharToId(c).value] == c
  {
    if c < 'A' {
      CharsToChar0(c);
    } else if c <= 'M' {
      CharsToChar1(c);
    } else if c <= 'Z' {
      CharsToChar2(c);
    } else if c <= 'm' {
      CharsToChar3(c);
    } else {
      CharsToChar4(c);
    }
  }

  // The same, one range of characters at a time.

  lemma CharsToChar0(c: char)
    requires CharToId(c).Some? && c < 'A'
    ensures CharToId(c).value < |IdToChar| && IdToChar[CharToId(c).value] == c
  {
  }

  lemma CharsToChar1(c: char)
    requires CharToId(c).Some? && 'A' <= c <= 'M'
    ensures CharToId(c).value < |IdToChar| && IdToChar[CharToId(c).value] == c
  {
  }

  lemma CharsToChar2(c: char)
    requires CharToId(c).Some? && 'M' < c <= 'Z'
    ensures CharToId(c).value < |IdToChar| && IdToChar[CharToId(c).value] == c
  {
  }

  lemma CharsToChar3(c: char)
    requires CharToId(c).Some? && 'Z' < c <= 'm'
    ensures CharToId(c).value < |IdToChar| && IdToChar[CharToId(c).value] == c
  {
  }

  lemma CharsToChar4(c: char)
    requires CharToId(c).Some? && 'm' < c
    ensures CharToId(c).value < |IdToChar| && IdToChar[CharToId(c).value] == c
  {
  }
}

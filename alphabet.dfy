/**
 * The configuration constants of the program (src/main.rs): the 26 lower-case
 * letters in alphabetical order and in descending English frequency order,
 * and the number of letters printed per line.
 */
module Alphabet {
  import opened Sequences

  const ALPHABET: string := [
    'a', 'b', 'c', 'd', 'e', 'f', 'g', 'h', 'i', 'j', 'k', 'l', 'm',
    'n', 'o', 'p', 'q', 'r', 's', 't', 'u', 'v', 'w', 'x', 'y', 'z'
  ]
  const ALPHABET_BY_FREQUENCY: string := [
    'e', 'a', 'r', 'i', 'o', 't', 'n', 's', 'l', 'c', 'u', 'd', 'p',
    'm', 'h', 'g', 'b', 'f', 'y', 'w', 'k', 'v', 'x', 'z', 'j', 'q'
  ]
  const ALPHABET_LINE_SIZE: nat := 5

  /** The letters the session tracks: lower-case ASCII a to z. */
  predicate IsLetter(c: char) {
    'a' <= c <= 'z'
  }

  /** Position `i` of the alphabet holds the `i`-th letter after 'a'. */
  lemma AlphabetAt()
    ensures |ALPHABET| == 26
    ensures forall i :: 0 <= i < 26 ==> ALPHABET[i] as int == 'a' as int + i
  {
  }

  lemma AlphabetLetters()
    ensures |ALPHABET| == 26 && NoDup(ALPHABET)
    ensures forall c :: c in ALPHABET <==> IsLetter(c)
  {
    AlphabetAt();
    forall c | IsLetter(c) ensures c in ALPHABET {
      assert ALPHABET[c as int - 'a' as int] == c;
    }
  }

  /** The place of a letter in the frequency order; -1 for any other character. */
  function FrequencyRank(c: char): int {
    match c
    case 'e' => 0 case 'a' => 1 case 'r' => 2 case 'i' => 3 case 'o' => 4 case 't' => 5
    case 'n' => 6 case 's' => 7 case 'l' => 8 case 'c' => 9 case 'u' => 10 case 'd' => 11
    case 'p' => 12 case 'm' => 13 case 'h' => 14 case 'g' => 15 case 'b' => 16 case 'f' => 17
    case 'y' => 18 case 'w' => 19 case 'k' => 20 case 'v' => 21 case 'x' => 22 case 'z' => 23
    case 'j' => 24 case 'q' => 25
    case _ => -1
  }

  /** Each position of the frequency order holds the letter of that rank. */
  lemma FrequencyAt()
    ensures |ALPHABET_BY_FREQUENCY| == 26
    ensures forall i :: 0 <= i < 26 ==> FrequencyRank(ALPHABET_BY_FREQUENCY[i]) == i
  {
  }

  lemma FrequencyLetters()
    ensures |ALPHABET_BY_FREQUENCY| == 26 && NoDup(ALPHABET_BY_FREQUENCY)
    ensures forall c :: c in ALPHABET_BY_FREQUENCY <==> IsLetter(c)
  {
    FrequencyAt();
    forall c | IsLetter(c) ensures c in ALPHABET_BY_FREQUENCY {
      assert 0 <= FrequencyRank(c) < 26;
      assert ALPHABET_BY_FREQUENCY[FrequencyRank(c)] == c;
    }
  }
}

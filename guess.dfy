/**
 * Guesses (src/guess.rs): a word checked against the configured length, and
 * the letters that occur more than once in it.
 */
module Guesses {
  import opened Wrappers
  import opened Sequences
  import opened Text

  /** `Guess`: the word and its double letters, computed once at construction. */
  datatype Guess = Guess(word: string, doubleLetters: seq<char>)

  /** The one way construction fails ("Guess is wrong size!"). */
  datatype GuessError = WrongSize

  /** `c` sits at two different positions of `s`. */
  ghost predicate Repeated(s: string, c: char) {
    exists i, j :: 0 <= i < j < |s| && s[i] == c && s[j] == c
  }

  /**
   * `r` lists each letter that repeats in `s`, once, and nothing else, in the
   * order in which those letters first appear in `s`.
   */
  ghost predicate DoubleLettersOf(r: seq<char>, s: string) {
    (forall c :: c in r <==> Repeated(s, c)) && OrderedBy(r, s)
  }

  /** At most one list meets that description. */
  lemma DoubleLettersUnique(r1: seq<char>, r2: seq<char>, s: string)
    requires DoubleLettersOf(r1, s) && DoubleLettersOf(r2, s)
    ensures r1 == r2
  {
    OrderedByUnique(r1, r2, s);
  }

  /** `find_double_letters`: scans the word, keeping each letter that occurs again later and is not yet kept. */
  method FindDoubleLetters(input: string) returns (ret: seq<char>)
    ensures DoubleLettersOf(ret, input)
    ensures NoDup(ret)
  {
    var chars := input;
    ret := [];
    for i := 0 to |chars|
      invariant forall c :: c in ret <==> c in chars[..i] && Repeated(chars, c)
      invariant OrderedBy(ret, chars)
      invariant forall a :: 0 <= a < |ret| ==> IndexOf(chars, ret[a]) < i
    {
      if chars[i] in chars[i + 1..] {
        if chars[i] !in ret {
          FirstOccurrence(chars, i);
          ret := ret + [chars[i]];
        }
      } else {
        NotLater(chars, i);
      }
      assert chars[..i + 1] == chars[..i] + [chars[i]];
    }
    assert chars[..|chars|] == chars;
    OrderedByNoDup(ret, chars);
  }

  /** A letter that occurs again after `i` but is not yet kept is first seen at `i`. */
  lemma FirstOccurrence(s: string, i: nat)
    requires i < |s| && s[i] in s[i + 1..]
    ensures Repeated(s, s[i])
    ensures s[i] !in s[..i] ==> IndexOf(s, s[i]) == i
  {
    var j :| i + 1 <= j < |s| && s[j] == s[i];
    if s[i] !in s[..i] {
      IndexOfAt(s, s[i], i);
    }
  }

  /** A letter with no later occurrence repeats only if it occurred earlier. */
  lemma NotLater(s: string, i: nat)
    requires i < |s| && s[i] !in s[i + 1..]
    ensures Repeated(s, s[i]) ==> s[i] in s[..i]
  {
    if Repeated(s, s[i]) {
      var a, b :| 0 <= a < b < |s| && s[a] == s[i] && s[b] == s[i];
      assert s[..i][a] == s[i];
    }
  }

  /**
   * `Guess::new`: rejects a word whose UTF-8 byte length differs from
   * `maxLength`; otherwise keeps the word and its double letters.
   */
  method NewGuess(word: string, maxLength: nat) returns (r: Result<Guess, GuessError>)
    ensures r.Err? <==> Utf8Length(word) != maxLength
    ensures r.Ok? ==> r.value.word == word && DoubleLettersOf(r.value.doubleLetters, word)
  {
    if Utf8Length(word) != maxLength {
      return Err(WrongSize);
    }
    var doubleLetters := FindDoubleLetters(word);
    r := Ok(Guess(word, doubleLetters));
  }

  /** The number of positions of `s` holding `c`. */
  function Occurrences(s: string, c: char): nat {
    if s == [] then 0 else (if s[0] == c then 1 else 0) + Occurrences(s[1..], c)
  }

  lemma {:induction false} OccursIffIn(s: string, c: char)
    ensures Occurrences(s, c) > 0 <==> c in s
  {
    if s != [] {
      OccursIffIn(s[1..], c);
      assert s == [s[0]] + s[1..];
    }
  }

  /** A letter repeats exactly when it occurs at least twice. */
  lemma {:induction false} RepeatedIffTwice(s: string, c: char)
    ensures Repeated(s, c) <==> Occurrences(s, c) >= 2
  {
    if s != [] {
      RepeatedIffTwice(s[1..], c);
      OccursIffIn(s[1..], c);
      if Repeated(s, c) {
        var i, j :| 0 <= i < j < |s| && s[i] == c && s[j] == c;
        if i > 0 {
          assert s[1..][i - 1] == c && s[1..][j - 1] == c;
        } else {
          assert s[1..][j - 1] == c;
        }
      }
      if Repeated(s[1..], c) {
        var i, j :| 0 <= i < j < |s| - 1 && s[1..][i] == c && s[1..][j] == c;
        assert s[i + 1] == c && s[j + 1] == c;
      }
      if s[0] == c && c in s[1..] {
        var j :| 0 <= j < |s| - 1 && s[1..][j] == c;
        assert s[j + 1] == c;
      }
    }
  }

  /** The cases exercised by the tests of src/guess.rs. */
  lemma NoDoubleLetters()
    ensures DoubleLettersOf([], "input")
  {
    forall c ensures !Repeated("input", c) {
      RepeatedIffTwice("input", c);
    }
  }

  lemma OneDoubleLetter()
    ensures DoubleLettersOf(['a'], "aabcd")
  {
    forall c ensures Repeated("aabcd", c) <==> c == 'a' {
      RepeatedIffTwice("aabcd", c);
    }
  }

  /** Of "aabbccdceff", exactly a, b, c and f repeat. */
  lemma MultipleDoubleLetters(c: char)
    ensures Repeated("aabbccdceff", c) <==> c in ['a', 'b', 'c', 'f']
  {
    var s := "aabbccdceff";
    if c == 'a' {
      assert s[0] == c && s[1] == c;
    } else if c == 'b' {
      assert s[2] == c && s[3] == c;
    } else if c == 'c' {
      assert s[4] == c && s[5] == c;
    } else if c == 'f' {
      assert s[9] == c && s[10] == c;
    } else {
      NotRepeatedInExample(c);
    }
  }

  lemma NotRepeatedInExample(c: char)
    requires c !in ['a', 'b', 'c', 'f']
    ensures !Repeated("aabbccdceff", c)
  {
    var s := "aabbccdceff";
    if c == 'd' {
      forall i | 0 <= i < |s| && s[i] == c ensures i == 6 {
      }
    } else if c == 'e' {
      forall i | 0 <= i < |s| && s[i] == c ensures i == 8 {
      }
    } else {
      forall i | 0 <= i < |s| ensures s[i] != c {
      }
    }
  }
}

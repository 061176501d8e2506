/**
 * The letter pool of src/letters.rs: the letters not yet used by any guess,
 * kept twice, once in alphabetical order and once in frequency order, as two
 * insertion-ordered sets (`IndexSet<char>`) that shrink in lockstep.
 */
module LetterSets {
  import opened Wrappers
  import opened Alphabet
  import opened Sequences

  /**
   * `IndexSet::shift_remove`: takes `x` out of `s` if it is there and shifts
   * the later elements down one place; otherwise `s` is unchanged.
   */
  function ShiftRemove<T(==)>(s: seq<T>, x: T): seq<T> {
    if s == [] then []
    else if s[0] == x then s[1..]
    else [s[0]] + ShiftRemove(s[1..], x)
  }

  /** Removing an element that is not there changes nothing. */
  lemma {:induction false} ShiftRemoveAbsent<T>(s: seq<T>, x: T)
    requires x !in s
    ensures ShiftRemove(s, x) == s
  {
    if s != [] {
      ShiftRemoveAbsent(s[1..], x);
      assert s == [s[0]] + s[1..];
    }
  }

  /** Removing an element that is there deletes exactly its first occurrence. */
  lemma {:induction false} ShiftRemoveFirst<T>(s: seq<T>, x: T)
    requires x in s
    ensures ShiftRemove(s, x) == s[..IndexOf(s, x)] + s[IndexOf(s, x) + 1..]
  {
    if s[0] != x {
      var t := s[1..];
      assert x in t;
      ShiftRemoveFirst(t, x);
      var k := IndexOf(t, x);
      assert IndexOf(s, x) == k + 1;
      ConsDelete(s, k);
    }
  }

  /** Deleting position `k` of the tail, then putting the head back, deletes position `k + 1`. */
  lemma ConsDelete<T>(s: seq<T>, k: nat)
    requires k + 1 < |s|
    ensures [s[0]] + (s[1..][..k] + s[1..][k + 1..]) == s[..k + 1] + s[k + 2..]
  {
    var t := s[1..];
    assert s[..k + 1] == [s[0]] + t[..k];
    assert s[k + 2..] == t[k + 1..];
  }

  /** Deleting index `k` shifts every later element down one place. */
  lemma DeleteAt<T>(s: seq<T>, k: nat)
    requires k < |s|
    ensures |s[..k] + s[k + 1..]| == |s| - 1
    ensures forall i :: 0 <= i < |s| - 1 ==> (s[..k] + s[k + 1..])[i] == if i < k then s[i] else s[i + 1]
  {
  }

  /** Deleting one position of a duplicate-free sequence takes out exactly the element there. */
  lemma DeleteNoDup<T>(s: seq<T>, k: nat)
    requires NoDup(s) && k < |s|
    ensures NoDup(s[..k] + s[k + 1..])
    ensures forall c :: c in s[..k] + s[k + 1..] <==> c in s && c != s[k]
  {
    var r := s[..k] + s[k + 1..];
    DeleteAt(s, k);
    forall i, j | 0 <= i < j < |r| ensures r[i] != r[j] {
      var i', j' := if i < k then i else i + 1, if j < k then j else j + 1;
      assert r[i] == s[i'] && r[j] == s[j'] && i' < j';
    }
    forall c ensures c in r <==> c in s && c != s[k] {
      if c in r {
        var i :| 0 <= i < |r| && r[i] == c;
        var i' := if i < k then i else i + 1;
        assert s[i'] == c && i' != k;
      }
      if c in s && c != s[k] {
        var j :| 0 <= j < |s| && s[j] == c;
        assert r[if j < k then j else j - 1] == c;
      }
    }
  }

  /** On a duplicate-free sequence, removal takes out exactly `x`. */
  lemma ShiftRemoveMembers<T>(s: seq<T>, x: T)
    requires NoDup(s)
    ensures NoDup(ShiftRemove(s, x))
    ensures forall c :: c in ShiftRemove(s, x) <==> c in s && c != x
    ensures |ShiftRemove(s, x)| == if x in s then |s| - 1 else |s|
  {
    if x in s {
      ShiftRemoveFirst(s, x);
      var k := IndexOf(s, x);
      DeleteNoDup(s, k);
      DeleteAt(s, k);
    } else {
      ShiftRemoveAbsent(s, x);
    }
  }

  /** Deleting one position keeps the relative order of the rest. */
  lemma DeleteOrdered<T>(s: seq<T>, reference: seq<T>, k: nat)
    requires OrderedBy(s, reference) && k < |s|
    ensures OrderedBy(s[..k] + s[k + 1..], reference)
  {
    var r := s[..k] + s[k + 1..];
    DeleteAt(s, k);
    assert forall i :: 0 <= i < |r| ==> r[i] in reference by {
      forall i | 0 <= i < |r| ensures r[i] in reference {
        assert r[i] == s[if i < k then i else i + 1];
      }
    }
    forall i, j | 0 <= i < j < |r| ensures IndexOf(reference, r[i]) < IndexOf(reference, r[j]) {
      var i', j' := if i < k then i else i + 1, if j < k then j else j + 1;
      assert r[i] == s[i'] && r[j] == s[j'] && i' < j';
    }
  }

  /** Removal keeps the relative order of what remains. */
  lemma ShiftRemoveOrdered<T>(s: seq<T>, reference: seq<T>, x: T)
    requires OrderedBy(s, reference)
    ensures OrderedBy(ShiftRemove(s, x), reference)
  {
    if x in s {
      ShiftRemoveFirst(s, x);
      DeleteOrdered(s, reference, IndexOf(s, x));
    } else {
      ShiftRemoveAbsent(s, x);
    }
  }

  /** A second removal of the same letter changes nothing. */
  lemma ShiftRemoveTwice<T>(s: seq<T>, x: T)
    requires NoDup(s)
    ensures ShiftRemove(ShiftRemove(s, x), x) == ShiftRemove(s, x)
  {
    ShiftRemoveMembers(s, x);
    ShiftRemoveAbsent(ShiftRemove(s, x), x);
  }

  /**
   * The invariant of a letter pool: both sets hold the same letters, and each
   * lists them in the order of its reference alphabet, which also rules out
   * duplicates.
   */
  ghost predicate PoolValid(alph: seq<char>, freq: seq<char>) {
    OrderedBy(alph, ALPHABET) &&
    OrderedBy(freq, ALPHABET_BY_FREQUENCY) &&
    (forall c :: c in alph <==> c in freq)
  }

  /** Both full alphabets form a valid pool. */
  lemma FullPoolValid()
    ensures PoolValid(ALPHABET, ALPHABET_BY_FREQUENCY)
  {
    AlphabetLetters();
    FrequencyLetters();
    OrderedBySelf(ALPHABET);
    OrderedBySelf(ALPHABET_BY_FREQUENCY);
  }

  /**
   * A valid pool is fully determined by which letters it holds: both
   * orders are fixed by the reference alphabets, whatever order the
   * letters were removed in.
   */
  lemma PoolDeterminedByLetters(alph1: seq<char>, freq1: seq<char>, alph2: seq<char>, freq2: seq<char>)
    requires PoolValid(alph1, freq1) && PoolValid(alph2, freq2)
    requires forall c :: c in alph1 <==> c in alph2
    ensures alph1 == alph2 && freq1 == freq2
  {
    OrderedByUnique(alph1, alph2, ALPHABET);
    OrderedByUnique(freq1, freq2, ALPHABET_BY_FREQUENCY);
  }

  /** Lockstep removal keeps the pool valid. */
  lemma LockstepRemoveValid(alph: seq<char>, freq: seq<char>, letter: char)
    requires PoolValid(alph, freq)
    ensures PoolValid(ShiftRemove(alph, letter), ShiftRemove(freq, letter))
  {
    ShiftRemoveOrdered(alph, ALPHABET, letter);
    ShiftRemoveOrdered(freq, ALPHABET_BY_FREQUENCY, letter);
    LockstepRemoveMembers(alph, freq, letter);
  }

  /**
   * Removing one letter from both sets of a valid pool: the letter is in
   * neither set afterwards, every other letter stays, and each set shrinks
   * by one exactly when the letter was there.
   */
  lemma LockstepRemoveMembers(alph: seq<char>, freq: seq<char>, letter: char)
    requires PoolValid(alph, freq)
    ensures letter in alph <==> letter in freq
    ensures forall c :: c in ShiftRemove(alph, letter) <==> c in alph && c != letter
    ensures forall c :: c in ShiftRemove(freq, letter) <==> c in freq && c != letter
    ensures |ShiftRemove(alph, letter)| == |alph| - (if letter in alph then 1 else 0)
    ensures |ShiftRemove(freq, letter)| == |freq| - (if letter in freq then 1 else 0)
    ensures letter !in freq ==> ShiftRemove(alph, letter) == alph && ShiftRemove(freq, letter) == freq
  {
    OrderedByNoDup(alph, ALPHABET);
    OrderedByNoDup(freq, ALPHABET_BY_FREQUENCY);
    ShiftRemoveMembers(alph, letter);
    ShiftRemoveMembers(freq, letter);
    if letter !in freq {
      ShiftRemoveAbsent(alph, letter);
      ShiftRemoveAbsent(freq, letter);
    }
  }

  class Letters {
    var alph: seq<char>
    var freq: seq<char>

    ghost predicate Valid()
      reads this
    {
      PoolValid(alph, freq)
    }

    /** `Letters::new`: both sets full. */
    constructor ()
      ensures alph == ALPHABET && freq == ALPHABET_BY_FREQUENCY
      ensures Valid()
    {
      alph := ALPHABET;
      freq := ALPHABET_BY_FREQUENCY;
      FullPoolValid();
    }

    /**
     * `Letters::remove`: removes `letter` from the frequency set and, only if
     * that succeeded, from the alphabetical set; `Some(letter)` when both
     * removals found it. On a valid pool the two always agree.
     */
    method Remove(letter: char) returns (r: Option<char>)
      modifies this
      ensures freq == ShiftRemove(old(freq), letter)
      ensures alph == if letter in old(freq) then ShiftRemove(old(alph), letter) else old(alph)
      ensures r == if letter in old(freq) && letter in old(alph) then Some(letter) else None
      ensures old(Valid()) ==> Valid() && (r.Some? <==> letter in old(alph)) && letter !in alph
    {
      ghost var wasValid := Valid();
      var inFreq := letter in freq;
      freq := ShiftRemove(freq, letter);
      if inFreq {
        var inAlph := letter in alph;
        alph := ShiftRemove(alph, letter);
        if inAlph {
          r := Some(letter);
        } else {
          r := None;
        }
      } else {
        r := None;
      }
      if wasValid {
        LockstepRemoveValid(old(alph), old(freq), letter);
        LockstepRemoveMembers(old(alph), old(freq), letter);
      }
    }
  }
}

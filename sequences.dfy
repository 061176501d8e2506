/** Facts about positions and relative order in sequences, shared by the letter pool and the guesses. */
module Sequences {

  /** No element occurs twice. */
  predicate NoDup<T(==)>(s: seq<T>) {
    forall i, j :: 0 <= i < j < |s| ==> s[i] != s[j]
  }

  /** The position of the first occurrence of `x` in `s`. */
  function IndexOf<T(==)>(s: seq<T>, x: T): (r: nat)
    requires x in s
    ensures r < |s| && s[r] == x
  {
    if s[0] == x then 0
    else
      assert s[1..][IndexOf(s[1..], x)] == x;
      1 + IndexOf(s[1..], x)
  }

  /** No earlier position holds `x`. */
  lemma {:induction false} IndexOfFirst<T>(s: seq<T>, x: T, i: nat)
    requires x in s && i < IndexOf(s, x)
    ensures s[i] != x
  {
    if i > 0 {
      IndexOfFirst(s[1..], x, i - 1);
    }
  }

  /** In a sequence without duplicates, every element sits at its own index. */
  lemma IndexOfDistinct<T>(s: seq<T>, i: nat)
    requires NoDup(s) && i < |s|
    ensures IndexOf(s, s[i]) == i
  {
  }

  /**
   * `s` lists elements of `reference`, each strictly after the previous one
   * in the order of `reference`: it is what remains of `reference` after
   * elements were taken out, with the order of the rest kept.
   */
  ghost predicate OrderedBy<T>(s: seq<T>, reference: seq<T>) {
    (forall i :: 0 <= i < |s| ==> s[i] in reference) &&
    (forall i, j :: 0 <= i < j < |s| ==> IndexOf(reference, s[i]) < IndexOf(reference, s[j]))
  }

  lemma OrderedByNoDup<T>(s: seq<T>, reference: seq<T>)
    requires OrderedBy(s, reference)
    ensures NoDup(s)
  {
  }

  lemma OrderedBySelf<T>(s: seq<T>)
    requires NoDup(s)
    ensures OrderedBy(s, s)
  {
    forall i | 0 <= i < |s| ensures IndexOf(s, s[i]) == i {
      IndexOfDistinct(s, i);
    }
  }

  /** An occurrence with none before it is the first one. */
  lemma IndexOfAt<T>(s: seq<T>, x: T, i: nat)
    requires i < |s| && s[i] == x && x !in s[..i]
    ensures IndexOf(s, x) == i
  {
    if i < IndexOf(s, x) {
      IndexOfFirst(s, x, i);
    }
  }

  /** Appending to a sequence does not move the first occurrence of what was already there. */
  lemma IndexOfExtend<T>(s: seq<T>, x: T, y: T)
    requires y in s
    ensures IndexOf(s + [x], y) == IndexOf(s, y)
  {
    var i := IndexOf(s, y);
    forall j | 0 <= j < i ensures s[j] != y {
      IndexOfFirst(s, y, j);
    }
    assert (s + [x])[..i] == s[..i];
    IndexOfAt(s + [x], y, i);
  }

  /** An order by `reference` is kept when `reference` grows, and a new last element extends it. */
  lemma OrderedBySnoc<T>(s: seq<T>, reference: seq<T>, x: T, appended: bool)
    requires OrderedBy(s, reference) && x !in reference
    ensures OrderedBy(if appended then s + [x] else s, reference + [x])
  {
    forall y | y in reference ensures IndexOf(reference + [x], y) == IndexOf(reference, y) {
      IndexOfExtend(reference, x, y);
    }
    IndexOfAt(reference + [x], x, |reference|);
    if appended {
      var t := s + [x];
      forall i, j | 0 <= i < j < |t|
        ensures IndexOf(reference + [x], t[i]) < IndexOf(reference + [x], t[j])
      {
        if j < |s| {
          assert t[i] == s[i] && t[j] == s[j];
        } else {
          assert t[i] == s[i] && t[j] == x;
        }
      }
    }
  }

  /** A non-empty sequence holds its first element. */
  lemma HeadIn<T>(s: seq<T>)
    requires s != []
    ensures s[0] in s
  {
  }

  /**
   * Two sequences ordered by the same reference and holding the same
   * elements are equal: the order of what remains is fully determined.
   */
  lemma {:induction false} OrderedByUnique<T>(a: seq<T>, b: seq<T>, reference: seq<T>)
    requires OrderedBy(a, reference) && OrderedBy(b, reference)
    requires forall c :: c in a <==> c in b
    ensures a == b
  {
    if a == [] {
      if b != [] {
        HeadIn(b);
      }
    } else if b == [] {
      HeadIn(a);
    } else {
      assert a[0] in b && b[0] in a;
      assert a[0] == b[0];
      OrderedByNoDup(a, reference);
      OrderedByNoDup(b, reference);
      forall c ensures c in a[1..] <==> c in b[1..] {
        assert c in a[1..] <==> c in a && c != a[0] by {
          if c in a[1..] {
            var i :| 1 <= i < |a| && a[i] == c;
          }
          assert a == [a[0]] + a[1..];
        }
        assert c in b[1..] <==> c in b && c != b[0] by {
          if c in b[1..] {
            var i :| 1 <= i < |b| && b[i] == c;
          }
          assert b == [b[0]] + b[1..];
        }
      }
      OrderedByUnique(a[1..], b[1..], reference);
      assert a == [a[0]] + a[1..] && b == [b[0]] + b[1..];
    }
  }
}

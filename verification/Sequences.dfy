/** What the compositor does with its lists of windows and outputs. */
module Sequences {
  datatype Option<+T> = None | Some(value: T)

  predicate NoDup<T(==)>(s: seq<T>) {
    forall i, j :: 0 <= i < j < |s| ==> s[i] != s[j]
  }

  /** The sequence without the occurrences of `x`, all others in order. */
  function RemoveAll<T(==)>(s: seq<T>, x: T): seq<T> {
    if s == [] then []
    else RemoveAll(s[..|s| - 1], x) + (if s[|s| - 1] == x then [] else [s[|s| - 1]])
  }

  lemma {:induction false} RemoveAllMember<T>(s: seq<T>, x: T, y: T)
    ensures y in RemoveAll(s, x) <==> y in s && y != x
  {
    if s != [] {
      RemoveAllMember(s[..|s| - 1], x, y);
      assert s == s[..|s| - 1] + [s[|s| - 1]];
    }
  }

  lemma RemoveAllSubset<T>(s: seq<T>, x: T)
    ensures forall y :: y in RemoveAll(s, x) ==> y in s && y != x
  {
    forall y | y in RemoveAll(s, x)
      ensures y in s && y != x
    {
      RemoveAllMember(s, x, y);
    }
  }

  lemma {:induction false} RemoveAllConcat<T>(a: seq<T>, b: seq<T>, x: T)
    ensures RemoveAll(a + b, x) == RemoveAll(a, x) + RemoveAll(b, x)
  {
    if b == [] {
      assert a + b == a;
      assert RemoveAll(a, x) + RemoveAll(b, x) == RemoveAll(a, x);
    } else {
      var front, last := b[..|b| - 1], b[|b| - 1];
      var kept := if last == x then [] else [last];
      RemoveAllConcat(a, front, x);
      assert (a + b)[..|a + b| - 1] == a + front && (a + b)[|a + b| - 1] == last;
      assert RemoveAll(a, x) + RemoveAll(front, x) + kept == RemoveAll(a, x) + (RemoveAll(front, x) + kept);
    }
  }

  lemma {:induction false} RemoveAbsent<T>(s: seq<T>, x: T)
    requires x !in s
    ensures RemoveAll(s, x) == s
  {
    if s != [] {
      RemoveAbsent(s[..|s| - 1], x);
    }
  }

  lemma {:induction false} RemoveAllNoDup<T>(s: seq<T>, x: T)
    requires NoDup(s)
    ensures NoDup(RemoveAll(s, x))
  {
    if s != [] {
      var front, last := s[..|s| - 1], s[|s| - 1];
      RemoveAllNoDup(front, x);
      RemoveAllMember(front, x, last);
    }
  }
}

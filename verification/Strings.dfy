/** The order of strings and sorting in place. */
module Strings {

  /** Lexicographic order. */
  predicate Leq(a: string, b: string) {
    a == "" || (b != "" && (a[0] < b[0] || (a[0] == b[0] && Leq(a[1..], b[1..]))))
  }

  lemma {:induction false} LeqTotal(a: string, b: string)
    ensures Leq(a, b) || Leq(b, a)
  {
    if a != "" && b != "" {
      LeqTotal(a[1..], b[1..]);
    }
  }

  lemma {:induction false} LeqAntisymmetric(a: string, b: string)
    requires Leq(a, b) && Leq(b, a)
    ensures a == b
  {
    if a != "" && b != "" {
      LeqAntisymmetric(a[1..], b[1..]);
      assert a == [a[0]] + a[1..] && b == [b[0]] + b[1..];
    }
  }

  lemma {:induction false} LeqTransitive(a: string, b: string, c: string)
    requires Leq(a, b) && Leq(b, c)
    ensures Leq(a, c)
  {
    if a != "" && a[0] == b[0] == c[0] {
      LeqTransitive(a[1..], b[1..], c[1..]);
    }
  }

  predicate Sorted(s: seq<string>) { forall i, j :: 0 <= i < j < |s| ==> Leq(s[i], s[j]) }

  /** A multiset has one sorted order. */
  lemma {:induction false} SortedUnique(s: seq<string>, t: seq<string>)
    requires Sorted(s) && Sorted(t) && multiset(s) == multiset(t)
    ensures s == t
  {
    hide Leq;
    if s == [] {
      assert |multiset(t)| == 0;
    } else {
      assert |multiset(s)| == |s| && |multiset(t)| == |t|;
      FirstIsLeast(s, t);
      FirstIsLeast(t, s);
      LeqAntisymmetric(s[0], t[0]);
      assert s == [s[0]] + s[1..] && t == [t[0]] + t[1..];
      assert multiset(s[1..]) == multiset(s) - multiset{s[0]};
      assert multiset(t[1..]) == multiset(t) - multiset{t[0]};
      SortedUnique(s[1..], t[1..]);
    }
  }

  lemma FirstIsLeast(s: seq<string>, t: seq<string>)
    requires Sorted(s) && s != [] && t != [] && multiset(s) == multiset(t)
    ensures Leq(s[0], t[0])
  {
    hide Leq;
    assert t[0] in multiset(t);
    var i :| 0 <= i < |s| && s[i] == t[0];
    LeqTotal(s[0], s[0]);
  }

  /** Sorted except that the string at j may be out of place to the left. */
  ghost predicate Inserting(s: seq<string>, j: nat, n: nat)
    requires j < n <= |s|
  {
    forall p, q :: 0 <= p < q < n && q != j ==> Leq(s[p], s[q])
  }

  lemma InsertStep(s: seq<string>, j: nat, n: nat)
    requires 0 < j < n <= |s| && Inserting(s, j, n) && !Leq(s[j - 1], s[j])
    ensures Inserting(s[j := s[j - 1]][j - 1 := s[j]], j - 1, n)
  {
    LeqTotal(s[j - 1], s[j]);
  }

  lemma InsertDone(s: seq<string>, j: nat, n: nat)
    requires j < n <= |s| && Inserting(s, j, n) && (j > 0 ==> Leq(s[j - 1], s[j]))
    ensures Sorted(s[..n])
  {
    forall p, q | 0 <= p < q < n
      ensures Leq(s[p], s[q])
    {
      if q == j && p < j - 1 {
        LeqTransitive(s[p], s[j - 1], s[j]);
      }
    }
  }

  /** The first n strings with the next one put among them. */
  method Insert(a: array<string>, n: nat)
    requires n < a.Length && Sorted(a[..n])
    modifies a
    ensures Sorted(a[..n + 1]) && multiset(a[..]) == multiset(old(a[..]))
  {
    hide Leq;
    var j := n;
    InsertStarts(a[..], n);
    while j > 0 && !Leq(a[j - 1], a[j])
      invariant 0 <= j <= n && Inserting(a[..], j, n + 1) && multiset(a[..]) == multiset(old(a[..]))
    {
      ghost var before := a[..];
      InsertStep(before, j, n + 1);
      a[j - 1], a[j] := a[j], a[j - 1];
      assert a[..] == before[j := before[j - 1]][j - 1 := before[j]];
      j := j - 1;
    }
    InsertDone(a[..], j, n + 1);
    assert a[..][..n + 1] == a[..n + 1];
  }

  lemma InsertStarts(s: seq<string>, n: nat)
    requires n < |s| && Sorted(s[..n])
    ensures Inserting(s, n, n + 1)
  {
    hide Leq;
    assert forall p :: 0 <= p < n ==> s[..n][p] == s[p];
  }

  method SortStrings(a: array<string>)
    modifies a
    ensures Sorted(a[..]) && multiset(a[..]) == multiset(old(a[..]))
  {
    hide Leq, Sorted;
    assert Sorted(a[..0]) by { NothingSorted(); }
    for n := 0 to a.Length
      invariant Sorted(a[..n]) && multiset(a[..]) == multiset(old(a[..]))
    {
      Insert(a, n);
    }
    assert a[..a.Length] == a[..];
  }

  lemma NothingSorted()
    ensures Sorted([])
  {
  }
}

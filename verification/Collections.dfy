// Sizes of maps and sets, and sequences without duplicates.
module Collections {
  lemma MapInsertSize<K, V>(m: map<K, V>, k: K, v: V)
    ensures |m[k := v]| == if k in m then |m| else |m| + 1
  {
    assert m[k := v].Keys == m.Keys + {k};
    if k in m { assert m.Keys + {k} == m.Keys; }
  }

  lemma MapRemoveSize<K, V>(m: map<K, V>, k: K)
    requires k in m
    ensures (m - {k}).Keys == m.Keys - {k} && |m - {k}| == |m| - 1
  {
    assert (m - {k}).Keys == m.Keys - {k};
  }

  lemma AddOne<T>(a: set<T>, x: T)
    ensures |a + {x}| == if x in a then |a| else |a| + 1
  {
    if x in a { assert a + {x} == a; }
  }

  // A set that fits strictly inside b still fits when it gains an element.
  lemma GrowWithin<T>(a: set<T>, b: set<T>, n: T, x: T)
    requires a <= b && n in b && n !in a
    ensures |a + {x}| <= |b|
  {
    AddOne(a, x);
    AddOne(a, n);
    SubsetSize(a + {n}, b);
  }

  function Elements<T>(s: seq<T>): set<T> {
    set x | x in s
  }

  ghost predicate Distinct<T>(s: seq<T>) {
    forall i, j :: 0 <= i < j < |s| ==> s[i] != s[j]
  }

  lemma DistinctAppend<T>(s: seq<T>, x: T)
    requires Distinct(s) && x !in s
    ensures Distinct(s + [x])
  {
  }

  lemma {:induction false} DistinctSize<T>(s: seq<T>)
    requires Distinct(s)
    ensures |Elements(s)| == |s|
  {
    if s != [] {
      var t := s[..|s| - 1];
      DistinctSize(t);
      var x := s[|s| - 1];
      assert s == t + [x];
      assert Elements(s) == Elements(t) + {x};
      assert x !in t;
    }
  }

  lemma {:induction false} SubsetSize<T>(a: set<T>, b: set<T>)
    requires a <= b
    ensures |a| <= |b|
  {
    assert b == a + (b - a);
    assert |a + (b - a)| == |a| + |b - a|;
  }

  ghost predicate Ascending(s: seq<nat>) {
    forall i, j :: 0 <= i < j < |s| ==> s[i] < s[j]
  }

  // The last of an ascending sequence is the greatest.
  lemma AscendingSplit(s: seq<nat>, rest: seq<nat>, last: nat)
    requires Ascending(s) && s == rest + [last]
    ensures last in s && Ascending(rest)
    ensures forall n :: n in s ==> n <= last
    ensures forall n :: n in rest <==> n in s && n < last
  {
    assert forall i :: 0 <= i < |rest| ==> rest[i] == s[i] && s[i] < s[|rest|];
  }

  method Least(s: set<nat>) returns (n: nat)
    requires s != {}
    ensures n in s && forall m :: m in s ==> n <= m
  {
    n :| n in s;
    var rest := s - {n};
    while rest != {}
      invariant n in s && rest <= s
      invariant forall m :: m in s && m !in rest ==> n <= m
      decreases rest
    {
      var k :| k in rest;
      if k < n { n := k; }
      rest := rest - {k};
    }
  }

  // The order in which a BTreeMap with these keys is iterated.
  method InOrder(s: set<nat>) returns (r: seq<nat>)
    ensures Ascending(r) && forall n :: n in r <==> n in s
  {
    r := [];
    var rest := s;
    while rest != {}
      invariant Ascending(r) && rest <= s && forall n :: n in r <==> n in s && n !in rest
      invariant forall i, m :: 0 <= i < |r| && m in rest ==> r[i] < m
      decreases rest
    {
      var n := Least(rest);
      r := r + [n];
      rest := rest - {n};
    }
  }
}

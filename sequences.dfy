/**
 * Sequence operations that the C# code takes from LINQ and `List<T>`:
 * `Union`, `Distinct` and `List.Remove`.
 */
module Sequences {

  /** The elements of a sequence, as a set. */
  function Elems<T>(s: seq<T>): set<T> {
    set x | x in s
  }

  /** No element occurs twice. */
  ghost predicate NoDuplicates<T>(s: seq<T>) {
    forall i, j :: 0 <= i < j < |s| ==> s[i] != s[j]
  }

  lemma ElemsCons<T>(s: seq<T>)
    requires s != []
    ensures Elems(s) == {s[0]} + Elems(s[1..])
  {
    assert s == [s[0]] + s[1..];
  }

  /** The elements of `s` that are not in `seen`, each at its first occurrence, in order. */
  function DistinctFrom<T(==)>(s: seq<T>, seen: set<T>): seq<T>
    decreases |s|
  {
    if s == [] then []
    else if s[0] in seen then DistinctFrom(s[1..], seen)
    else [s[0]] + DistinctFrom(s[1..], seen + {s[0]})
  }

  /** LINQ `Distinct`. */
  function Distinct<T(==)>(s: seq<T>): seq<T> {
    DistinctFrom(s, {})
  }

  /** LINQ `a.Union(b)`: the distinct elements of `a` followed by those of `b`, in first-occurrence order. */
  function Union<T(==)>(a: seq<T>, b: seq<T>): seq<T> {
    DistinctFrom(a + b, {})
  }

  lemma {:induction false} DistinctFromProperties<T>(s: seq<T>, seen: set<T>)
    ensures NoDuplicates(DistinctFrom(s, seen))
    ensures Elems(DistinctFrom(s, seen)) == Elems(s) - seen
    decreases |s|
  {
    if s != [] {
      ElemsCons(s);
      if s[0] in seen {
        DistinctFromProperties(s[1..], seen);
      } else {
        var tail := DistinctFrom(s[1..], seen + {s[0]});
        DistinctFromProperties(s[1..], seen + {s[0]});
        var r := [s[0]] + tail;
        assert r == DistinctFrom(s, seen);
        ElemsCons(r);
        assert r[1..] == tail;
        forall i, j | 0 <= i < j < |r| ensures r[i] != r[j] {
          assert r[j] == tail[j - 1];
          if i == 0 {
            assert tail[j - 1] in Elems(tail);
          } else {
            assert r[i] == tail[i - 1];
          }
        }
      }
    }
  }

  /** A sequence without duplicates whose elements are all unseen is its own `DistinctFrom`. */
  lemma {:induction false} DistinctFromNoDuplicates<T>(s: seq<T>, seen: set<T>)
    requires NoDuplicates(s) && seen !! Elems(s)
    ensures DistinctFrom(s, seen) == s
    decreases |s|
  {
    if s != [] {
      ElemsCons(s);
      forall k | 0 <= k < |s| - 1 ensures s[1..][k] != s[0] {
        assert s[1..][k] == s[k + 1];
      }
      assert s[0] !in Elems(s[1..]);
      DistinctFromNoDuplicates(s[1..], seen + {s[0]});
    }
  }

  /** `DistinctFrom` of a concatenation is done part by part. */
  lemma {:induction false} DistinctFromAppend<T>(a: seq<T>, b: seq<T>, seen: set<T>)
    ensures DistinctFrom(a + b, seen) == DistinctFrom(a, seen) + DistinctFrom(b, seen + Elems(a))
    decreases |a|
  {
    if a == [] {
      assert a + b == b;
      assert seen + Elems(a) == seen;
    } else {
      assert (a + b)[0] == a[0];
      assert (a + b)[1..] == a[1..] + b;
      ElemsCons(a);
      if a[0] in seen {
        DistinctFromAppend(a[1..], b, seen);
        assert seen + Elems(a[1..]) == seen + Elems(a);
      } else {
        DistinctFromAppend(a[1..], b, seen + {a[0]});
        assert seen + {a[0]} + Elems(a[1..]) == seen + Elems(a);
      }
    }
  }

  /** The union holds the distinct elements of `a` first, then those of `b` not in `a`; it has no duplicates
      and its element set is the set union, whichever argument comes first. */
  lemma UnionProperties<T>(a: seq<T>, b: seq<T>)
    ensures Union(a, b) == Distinct(a) + DistinctFrom(b, Elems(a))
    ensures NoDuplicates(Union(a, b))
    ensures Elems(Union(a, b)) == Elems(a) + Elems(b) == Elems(Union(b, a))
  {
    DistinctFromAppend(a, b, {});
    assert {} + Elems(a) == Elems(a);
    DistinctFromProperties(a + b, {});
    DistinctFromProperties(b + a, {});
    assert Elems(a + b) == Elems(a) + Elems(b) == Elems(b + a);
  }

  /** LINQ `Union` never repeats an element. */
  lemma UnionNoDuplicates<T>(a: seq<T>, b: seq<T>)
    ensures NoDuplicates(Union(a, b))
  {
    DistinctFromProperties(a + b, {});
  }

  /** The index of the first occurrence of `x` in `s`, or `|s|` when there is none. */
  function FirstIndex<T(==)>(s: seq<T>, x: T): (i: nat)
    ensures i <= |s| && (i < |s| <==> x in s)
    ensures i < |s| ==> s[i] == x
    ensures forall k :: 0 <= k < i ==> s[k] != x
    decreases |s|
  {
    if s == [] then 0
    else if s[0] == x then 0
    else 1 + FirstIndex(s[1..], x)
  }

  /** In a sequence without duplicates, the first index of the element at `k` is `k`. */
  lemma FirstIndexDistinct<T>(s: seq<T>, k: int)
    requires NoDuplicates(s) && 0 <= k < |s|
    ensures FirstIndex(s, s[k]) == k
  {
    var f := FirstIndex(s, s[k]);
    assert s[k] in s;
    assert s[f] == s[k];
  }

  /** `List.Remove`: drops the first occurrence of `x`, if there is one. */
  function RemoveFirst<T(==)>(s: seq<T>, x: T): seq<T> {
    var i := FirstIndex(s, x);
    if i < |s| then s[..i] + s[i + 1..] else s
  }

  /** Removing the only occurrence of `x` from a sequence without duplicates leaves a sequence without
      duplicates that holds every other element and not `x`. */
  lemma RemoveFirstNoDuplicates<T>(s: seq<T>, x: T)
    requires NoDuplicates(s) && x in s
    ensures var r := RemoveFirst(s, x);
      NoDuplicates(r) && x !in r && Elems(r) == Elems(s) - {x} && |r| == |s| - 1
  {
    var r := RemoveFirst(s, x);
    var i := FirstIndex(s, x);
    assert r == s[..i] + s[i + 1..];
    assert |r| == |s| - 1;
    assert forall k :: 0 <= k < |r| ==> r[k] == (if k < i then s[k] else s[k + 1]);
    forall a, b | 0 <= a < b < |r| ensures r[a] != r[b] {
      var a' := if a < i then a else a + 1;
      var b' := if b < i then b else b + 1;
      assert r[a] == s[a'] && r[b] == s[b'] && a' < b';
    }
    forall k | 0 <= k < |r| ensures r[k] != x {
      var k' := if k < i then k else k + 1;
      assert r[k] == s[k'] && k' != i;
    }
    forall y | y in Elems(s) - {x} ensures y in Elems(r) {
      var k :| 0 <= k < |s| && s[k] == y;
      if k < i { assert r[k] == y; } else { assert r[k - 1] == y; }
    }
  }

  /** Two sequences without duplicates and with no common element concatenate to one without duplicates. */
  lemma NoDuplicatesAppend<T>(a: seq<T>, b: seq<T>)
    requires NoDuplicates(a) && NoDuplicates(b)
    requires forall x :: x in a ==> x !in b
    ensures NoDuplicates(a + b)
  {
    forall i, j | 0 <= i < j < |a + b| ensures (a + b)[i] != (a + b)[j] {
      if j < |a| {
        assert (a + b)[i] == a[i] && (a + b)[j] == a[j];
      } else if i >= |a| {
        assert (a + b)[i] == b[i - |a|] && (a + b)[j] == b[j - |a|];
      } else {
        assert (a + b)[i] == a[i] && (a + b)[j] == b[j - |a|];
        assert a[i] in a;
      }
    }
  }

  /** `List.Remove` takes away exactly one occurrence of an element that is present. */
  lemma RemoveFirstMultiset<T>(s: seq<T>, x: T)
    requires x in s
    ensures multiset(RemoveFirst(s, x)) == multiset(s) - multiset{x}
  {
    var i := FirstIndex(s, x);
    assert s == s[..i] + [x] + s[i + 1..];
    assert multiset(s) == multiset(s[..i]) + multiset{x} + multiset(s[i + 1..]);
  }
}

/**
 * The two list helpers both entry points declare identically: `range(from, to)` and the
 * `onlyUnique` filter predicate, with `a.filter(onlyUnique)` as `Unique(a)`.
 */
module Lists {
  import opened Wrappers

  /** The largest length `Array(n)` accepts: 2^32 - 1. */
  const MaxArrayLength: int := 0xFFFF_FFFF

  predicate NoDuplicates<T(==)>(s: seq<T>) {
    forall i, j :: 0 <= i < j < |s| ==> s[i] != s[j]
  }

  predicate StrictlyAscending(s: seq<int>) {
    forall i, j :: 0 <= i < j < |s| ==> s[i] < s[j]
  }

  /**
   * `range(from, to)`: the `to - from + 1` consecutive integers from `from` upwards; a length
   * outside what `Array` accepts (so any `to < from - 1`) throws a RangeError.
   */
  function Range(from: int, to: int): (r: Result<seq<int>>)
    ensures r.Err? <==> !(0 <= to - from + 1 <= MaxArrayLength)
    ensures r.Err? ==> r.error == InvalidArrayLength(to - from + 1)
    ensures r.Ok? ==> |r.value| == to - from + 1 && (|r.value| > 0 ==> r.value[0] == from)
    ensures r.Ok? ==> forall i :: 0 <= i < |r.value| - 1 ==> r.value[i + 1] == r.value[i] + 1
  {
    var n := to - from + 1;
    if 0 <= n <= MaxArrayLength then Ok(seq(n, i => i + from)) else
      Err(InvalidArrayLength(n))
  }

  /** A successful `range(from, to)` holds exactly the integers from `from` to `to`, ascending. */
  lemma RangeMembers(from: int, to: int)
    requires Range(from, to).Ok?
    ensures StrictlyAscending(Range(from, to).value)
    ensures forall x :: x in Range(from, to).value <==> from <= x <= to
  {
    var s := Range(from, to).value;
    forall x | from <= x <= to ensures x in s {
      assert s[x - from] == x;
    }
    forall i, j | 0 <= i < j < |s| ensures s[i] < s[j] {
      assert s[i] == from + i && s[j] == from + j;
    }
  }

  /** `array.indexOf(v)`: the first position holding `v`, or -1. */
  function IndexOf<T(==)>(a: seq<T>, v: T): (k: int)
    ensures -1 <= k < |a|
    ensures k == -1 <==> v !in a
    ensures k >= 0 ==> a[k] == v && v !in a[..k]
  {
    if a == [] then -1
    else if a[0] == v then 0
    else
      var k := IndexOf(a[1..], v);
      if k == -1 then -1
      else
        assert a[..k + 1] == [a[0]] + a[1..][..k];
        k + 1
  }

  /** `onlyUnique(value, index, array)`: keep an element only at its first occurrence. */
  predicate OnlyUnique<T(==)>(value: T, index: int, list: seq<T>) {
    IndexOf(list, value) == index
  }

  /** What `a.filter(onlyUnique)` keeps from position `i` on. */
  function KeepFrom<T(==)>(a: seq<T>, i: nat): seq<T>
    requires i <= |a|
    decreases |a| - i
  {
    if i == |a| then [] else (if OnlyUnique(a[i], i, a) then [a[i]] else []) + KeepFrom(a, i + 1)
  }

  lemma {:induction false} KeepFromMembers<T>(a: seq<T>, i: nat)
    requires i <= |a|
    ensures forall x {:trigger x in KeepFrom(a, i)} :: x in KeepFrom(a, i) <==> x in a && IndexOf(a, x) >= i
    decreases |a| - i
  {
    if i < |a| {
      KeepFromMembers(a, i + 1);
      if !OnlyUnique(a[i], i, a) {
        forall x | x in a && IndexOf(a, x) >= i ensures IndexOf(a, x) >= i + 1 {
          assert a[IndexOf(a, x)] == x;
        }
      }
    }
  }

  lemma {:induction false} KeepFromOrdered<T>(a: seq<T>, i: nat)
    requires i <= |a|
    ensures forall p, q :: 0 <= p < q < |KeepFrom(a, i)| ==>
              IndexOf(a, KeepFrom(a, i)[p]) < IndexOf(a, KeepFrom(a, i)[q])
    decreases |a| - i
  {
    if i < |a| {
      KeepFromOrdered(a, i + 1);
      KeepFromMembers(a, i + 1);
      var rest := KeepFrom(a, i + 1);
      if OnlyUnique(a[i], i, a) {
        var r := [a[i]] + rest;
        assert KeepFrom(a, i) == r;
        forall p, q | 0 <= p < q < |r| ensures IndexOf(a, r[p]) < IndexOf(a, r[q]) {
          assert r[q] == rest[q - 1] && r[q] in rest;
          assert IndexOf(a, r[q]) >= i + 1;
          if p == 0 {
            assert r[0] == a[i];
          } else {
            assert r[p] == rest[p - 1];
          }
        }
      }
    }
  }

  lemma KeepFromAll<T>(a: seq<T>)
    ensures forall p :: 0 <= p < |KeepFrom(a, 0)| ==> KeepFrom(a, 0)[p] in a
    ensures forall j :: 0 <= j < |a| ==> a[j] in KeepFrom(a, 0)
  {
    KeepFromMembers(a, 0);
    forall p | 0 <= p < |KeepFrom(a, 0)| ensures KeepFrom(a, 0)[p] in a {
      KeptIsMember(a, KeepFrom(a, 0)[p]);
    }
    forall j | 0 <= j < |a| ensures a[j] in KeepFrom(a, 0) {
      assert a[j] in a;
    }
  }

  lemma KeptIsMember<T>(a: seq<T>, y: T)
    requires y in KeepFrom(a, 0)
    ensures y in a
  {
    KeepFromMembers(a, 0);
  }

  /**
   * `a.filter(onlyUnique)`: every element of `a` exactly once, ordered by where it first occurs.
   */
  function Unique<T(==)>(a: seq<T>): (r: seq<T>)
    ensures forall i :: 0 <= i < |a| ==> a[i] in r
    ensures forall i :: 0 <= i < |r| ==> r[i] in a
    ensures forall p, q :: 0 <= p < q < |r| ==> IndexOf(a, r[p]) < IndexOf(a, r[q])
    ensures NoDuplicates(r)
  {
    KeepFromOrdered(a, 0);
    KeepFromAll(a);
    KeepFrom(a, 0)
  }

  /** In a list without duplicates every member occurs exactly once. */
  lemma {:induction false} DistinctCount<T>(s: seq<T>, x: T)
    requires NoDuplicates(s)
    ensures multiset(s)[x] == if x in s then 1 else 0
  {
    if s != [] {
      var rest := s[1..];
      assert s == [s[0]] + rest;
      assert NoDuplicates(rest) by {
        forall i, j | 0 <= i < j < |rest| ensures rest[i] != rest[j] {
          assert rest[i] == s[i + 1] && rest[j] == s[j + 1];
        }
      }
      DistinctCount(rest, x);
      assert s[0] !in rest by {
        forall j | 0 <= j < |rest| ensures rest[j] != s[0] {
          assert rest[j] == s[j + 1];
        }
      }
      assert multiset(s) == multiset{s[0]} + multiset(rest);
    }
  }

  /** The filter keeps the same members. */
  lemma UniqueMembers<T>(a: seq<T>, x: T)
    ensures x in Unique(a) <==> x in a
  {
    if x in Unique(a) {
      var k :| 0 <= k < |Unique(a)| && Unique(a)[k] == x;
      assert Unique(a)[k] in a;
    }
    if x in a {
      var k :| 0 <= k < |a| && a[k] == x;
      assert a[k] in Unique(a);
    }
  }

  /**
   * The last survivor of `Unique` is `a[k]` when `a[k]` first occurs at `k` and every later element
   * repeats one at or before `k`.
   */
  lemma LastOfUnique<T>(a: seq<T>, k: nat)
    requires k < |a| && a[k] !in a[..k]
    requires forall i :: k < i < |a| ==> a[i] in a[..k + 1]
    ensures Unique(a) != [] && Unique(a)[|Unique(a)| - 1] == a[k]
  {
    var u := Unique(a);
    assert a[k] in u;
    var q :| 0 <= q < |u| && u[q] == a[k];
    assert IndexOf(a, a[k]) == k;
    var w := u[|u| - 1];
    assert w in a;
    var i := IndexOf(a, w);
    assert i <= k by {
      assert w !in a[..i];
      assert forall m :: 0 <= m <= k && m < i ==> a[..i][m] == a[m];
    }
    assert q == |u| - 1;
  }

  /** The same, when every element after `k` repeats `a[k]` itself. */
  lemma LastOfUniqueRepeated<T>(a: seq<T>, k: nat)
    requires k < |a| && a[k] !in a[..k]
    requires forall i :: k < i < |a| ==> a[i] == a[k]
    ensures Unique(a) != [] && Unique(a)[|Unique(a)| - 1] == a[k]
  {
    forall i | k < i < |a| ensures a[i] in a[..k + 1] {
      assert a[..k + 1][k] == a[k];
    }
    LastOfUnique(a, k);
  }

  lemma {:induction false} KeepFromDistinct<T>(a: seq<T>, i: nat)
    requires NoDuplicates(a) && i <= |a|
    ensures KeepFrom(a, i) == a[i..]
    decreases |a| - i
  {
    if i < |a| {
      KeepFromDistinct(a, i + 1);
      var k := IndexOf(a, a[i]);
      assert a[k] == a[i];
      assert k == i;
      assert a[i..] == [a[i]] + a[i + 1..];
    }
  }

  /** On a list without duplicates the filter changes nothing. */
  lemma UniqueOfDistinct<T>(a: seq<T>)
    requires NoDuplicates(a)
    ensures Unique(a) == a
  {
    KeepFromDistinct(a, 0);
  }

  lemma UniqueIdempotent<T>(a: seq<T>)
    ensures Unique(Unique(a)) == Unique(a)
  {
    UniqueOfDistinct(Unique(a));
  }

  /** `a.filter(e => e != x)`. */
  function Without<T(==)>(a: seq<T>, x: T): seq<T> {
    if a == [] then [] else (if a[0] == x then [] else [a[0]]) + Without(a[1..], x)
  }

  /** The filter keeps exactly the elements other than `x`, and never lengthens the list. */
  lemma {:induction false} WithoutMembers<T>(a: seq<T>, x: T, y: T)
    ensures y in Without(a, x) <==> y in a && y != x
    ensures |Without(a, x)| <= |a|
  {
    if a != [] {
      WithoutMembers(a[1..], x, y);
      assert a == [a[0]] + a[1..];
    }
  }

  /** One step of the filter at a position: only a repeated `x` is dropped there. */
  lemma WithoutKeepStep<T>(a: seq<T>, x: T, i: nat)
    requires forall p, q :: 0 <= p < q < |a| && a[p] == a[q] ==> a[p] == x
    requires i < |a|
    ensures Without(KeepFrom(a, i), x) == Without([a[i]], x) + Without(KeepFrom(a, i + 1), x)
  {
    var head := if OnlyUnique(a[i], i, a) then [a[i]] else [];
    assert KeepFrom(a, i) == head + KeepFrom(a, i + 1);
    WithoutAppend(head, KeepFrom(a, i + 1), x);
    if a[i] != x {
      var k := IndexOf(a, a[i]);
      assert a[k] == a[i];
    }
  }

  lemma {:induction false} WithoutKeepFrom<T>(a: seq<T>, x: T, i: nat)
    requires forall p, q :: 0 <= p < q < |a| && a[p] == a[q] ==> a[p] == x
    requires i <= |a|
    ensures Without(KeepFrom(a, i), x) == Without(a[i..], x)
    decreases |a| - i
  {
    if i < |a| {
      WithoutKeepStep(a, x, i);
      WithoutKeepFrom(a, x, i + 1);
      assert a[i..] == [a[i]] + a[i + 1..];
      WithoutAppend([a[i]], a[i + 1..], x);
    }
  }

  lemma {:induction false} WithoutAppend<T>(s: seq<T>, t: seq<T>, x: T)
    ensures Without(s + t, x) == Without(s, x) + Without(t, x)
    decreases |s|
  {
    if s != [] {
      WithoutAppend(s[1..], t, x);
      assert (s + t)[0] == s[0] && (s + t)[1..] == s[1..] + t;
      var h := if s[0] == x then [] else [s[0]];
      calc {
        Without(s + t, x);
        h + Without(s[1..] + t, x);
        h + (Without(s[1..], x) + Without(t, x));
        (h + Without(s[1..], x)) + Without(t, x);
        Without(s, x) + Without(t, x);
      }
    } else {
      assert s + t == t;
    }
  }

  /**
   * When `x` is the only value that may occur more than once, the filter drops only repeated
   * copies of `x`: every other element stays, in its order.
   */
  lemma UniqueKeepsAllButOne<T>(a: seq<T>, x: T)
    requires forall p, q :: 0 <= p < q < |a| && a[p] == a[q] ==> a[p] == x
    ensures Without(Unique(a), x) == Without(a, x)
  {
    WithoutKeepFrom(a, x, 0);
    assert a[0..] == a;
  }
}

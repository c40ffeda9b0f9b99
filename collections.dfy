/**
 * Sequence operations that the table steps and the ORF grouping share:
 * boolean-mask selection, keep-first de-duplication, subsequences, and the
 * insertion-ordered dictionary that Python's `dict` is.
 */
module Collections {

  /** No element occurs twice. */
  predicate Distinct<T(==)>(s: seq<T>) {
    forall i, j :: 0 <= i < j < |s| ==> s[i] != s[j]
  }

  /** `a` is `b` with some elements left out, the rest in their original order. */
  predicate IsSubseq<T(==)>(a: seq<T>, b: seq<T>)
    decreases |b|
  {
    if a == [] then true
    else if b == [] then false
    else if a[0] == b[0] then IsSubseq(a[1..], b[1..])
    else IsSubseq(a, b[1..])
  }

  /** `f` applied to every element. */
  function Map<T, U>(s: seq<T>, f: T -> U): (r: seq<U>)
    ensures |r| == |s|
    ensures forall i :: 0 <= i < |s| ==> r[i] == f(s[i])
  {
    seq(|s|, i requires 0 <= i < |s| => f(s[i]))
  }

  /** The elements of `s` for which `p` holds, in their original order (a boolean-mask selection). */
  function Filter<T>(s: seq<T>, p: T -> bool): (r: seq<T>)
    ensures |r| <= |s|
    ensures forall i :: 0 <= i < |r| ==> p(r[i])
  {
    if s == [] then [] else (if p(s[0]) then [s[0]] else []) + Filter(s[1..], p)
  }

  /** An element is selected exactly when it occurs in the input and passes the mask. */
  lemma {:induction false} FilterMembership<T>(s: seq<T>, p: T -> bool, x: T)
    ensures x in Filter(s, p) <==> x in s && p(x)
  {
    if s != [] {
      FilterMembership(s[1..], p, x);
      assert x in s <==> x == s[0] || x in s[1..];
    }
  }

  /** Selection keeps every occurrence of a passing element and none of a failing one. */
  lemma {:induction false} FilterCount<T>(s: seq<T>, p: T -> bool, x: T)
    ensures multiset(Filter(s, p))[x] == if p(x) then multiset(s)[x] else 0
  {
    if s != [] {
      FilterCount(s[1..], p, x);
      assert s == [s[0]] + s[1..];
      assert multiset(s) == multiset([s[0]]) + multiset(s[1..]);
    }
  }

  lemma {:induction false} FilterConcat<T>(a: seq<T>, b: seq<T>, p: T -> bool)
    ensures Filter(a + b, p) == Filter(a, p) + Filter(b, p)
  {
    if a != [] {
      var ab := a + b;
      assert ab[0] == a[0] && ab[1..] == a[1..] + b;
      FilterConcat(a[1..], b, p);
      var h := if p(a[0]) then [a[0]] else [];
      assert Filter(ab, p) == h + Filter(a[1..] + b, p);
      assert Filter(a, p) == h + Filter(a[1..], p);
      assert h + (Filter(a[1..], p) + Filter(b, p)) == (h + Filter(a[1..], p)) + Filter(b, p);
    } else {
      assert a + b == b;
    }
  }

  /** Selection keeps what it keeps in the original order. */
  lemma {:induction false} FilterIsSubseq<T>(s: seq<T>, p: T -> bool)
    ensures IsSubseq(Filter(s, p), s)
  {
    if s != [] {
      var f := Filter(s[1..], p);
      FilterIsSubseq(s[1..], p);
      if p(s[0]) {
        assert Filter(s, p) == [s[0]] + f;
        assert ([s[0]] + f)[1..] == f;
      } else {
        assert Filter(s, p) == f;
        SubseqDropHead(f, s);
      }
    }
  }

  lemma {:induction false} SubseqDropHead<T>(a: seq<T>, b: seq<T>)
    requires b != [] && IsSubseq(a, b[1..])
    ensures IsSubseq(a, b)
    decreases |b|, |a|
  {
    if a != [] && a[0] == b[0] {
      SubseqTail(a, b[1..]);
    }
  }

  lemma {:induction false} SubseqTail<T>(a: seq<T>, b: seq<T>)
    requires a != [] && IsSubseq(a, b)
    ensures IsSubseq(a[1..], b)
    decreases |b|, |a|
  {
    if a[0] != b[0] {
      SubseqTail(a, b[1..]);
      SubseqDropHead(a[1..], b);
    } else if |a| > 1 {
      SubseqDropHead(a[1..], b);
    }
  }

  /** A subsequence of a subsequence is a subsequence. */
  lemma {:induction false} SubseqTrans<T>(a: seq<T>, b: seq<T>, c: seq<T>)
    requires IsSubseq(a, b) && IsSubseq(b, c)
    ensures IsSubseq(a, c)
    decreases |c|
  {
    if a != [] && c != [] {
      if b[0] == c[0] {
        if a[0] == b[0] {
          SubseqTrans(a[1..], b[1..], c[1..]);
        } else {
          SubseqTrans(a, b[1..], c[1..]);
          SubseqDropHead(a, c);
        }
      } else {
        SubseqTrans(a, b, c[1..]);
        SubseqDropHead(a, c);
      }
    }
  }

  /** Selecting twice with the same mask selects nothing more. */
  lemma {:induction false} FilterIdempotent<T>(s: seq<T>, p: T -> bool)
    ensures Filter(Filter(s, p), p) == Filter(s, p)
  {
    if s != [] {
      var f := Filter(s[1..], p);
      FilterIdempotent(s[1..], p);
      if p(s[0]) {
        var t := [s[0]] + f;
        assert Filter(s, p) == t;
        assert t[0] == s[0] && t[1..] == f;
        assert Filter(t, p) == [s[0]] + Filter(f, p);
      } else {
        assert Filter(s, p) == f;
      }
    }
  }

  /** Selection keeps distinct rows distinct. */
  lemma {:induction false} FilterDistinct<T>(s: seq<T>, p: T -> bool)
    requires Distinct(s)
    ensures Distinct(Filter(s, p))
  {
    if s != [] {
      assert Distinct(s[1..]);
      FilterDistinct(s[1..], p);
      assert s[0] !in s[1..];
      FilterMembership(s[1..], p, s[0]);
    }
  }

  /** `f(x)` for every `x` of `s`, concatenated in order. */
  function ConcatMap<T, U>(s: seq<T>, f: T -> seq<U>): seq<U> {
    if s == [] then [] else ConcatMap(s[..|s| - 1], f) + f(s[|s| - 1])
  }

  lemma {:induction false} ConcatMapConcat<T, U>(a: seq<T>, b: seq<T>, f: T -> seq<U>)
    ensures ConcatMap(a + b, f) == ConcatMap(a, f) + ConcatMap(b, f)
  {
    if b == [] {
      assert a + b == a;
    } else {
      var front, last := b[..|b| - 1], b[|b| - 1];
      assert (a + b)[..|a + b| - 1] == a + front;
      ConcatMapConcat(a, front, f);
    }
  }
  lemma ConcatMapCons<T, U>(s: seq<T>, f: T -> seq<U>)
    requires s != []
    ensures ConcatMap(s, f) == f(s[0]) + ConcatMap(s[1..], f)
  {
    assert s == [s[0]] + s[1..];
    ConcatMapConcat([s[0]], s[1..], f);
    assert [s[0]][..0] == [];
  }

  lemma MapCons<T, U>(s: seq<T>, f: T -> U)
    requires s != []
    ensures Map(s, f) == [f(s[0])] + Map(s[1..], f)
  {
    var m := [f(s[0])] + Map(s[1..], f);
    forall i | 0 <= i < |s| ensures m[i] == Map(s, f)[i] {
      if i > 0 {
        assert m[i] == Map(s[1..], f)[i - 1];
      }
    }
    assert m == Map(s, f);
  }


  /** Concatenating `f` over `g` of every element is concatenating `h` over them when `f(g(x)) == h(x)`. */
  lemma {:induction false} ConcatMapOfMap<T, U, V>(s: seq<T>, g: T -> U, f: U -> seq<V>, h: T -> seq<V>)
    requires forall i :: 0 <= i < |s| ==> f(g(s[i])) == h(s[i])
    ensures ConcatMap(Map(s, g), f) == ConcatMap(s, h)
  {
    if s != [] {
      var front := s[..|s| - 1];
      ConcatMapOfMap(front, g, f, h);
      assert Map(s, g)[..|s| - 1] == Map(front, g);
    }
  }

  /** Every element of the result comes from some element of the input. */
  lemma {:induction false} ConcatMapFrom<T, U>(s: seq<T>, f: T -> seq<U>, y: U)
    requires y in ConcatMap(s, f)
    ensures exists x :: x in s && y in f(x)
  {
    var front, last := s[..|s| - 1], s[|s| - 1];
    if y !in f(last) {
      ConcatMapFrom(front, f, y);
      var x :| x in front && y in f(x);
      assert x in s;
    }
  }

  /** When no element maps to nothing, there are at least as many results as inputs. */
  lemma {:induction false} ConcatMapLength<T, U>(s: seq<T>, f: T -> seq<U>)
    requires forall i :: 0 <= i < |s| ==> f(s[i]) != []
    ensures |ConcatMap(s, f)| >= |s|
  {
    if s != [] {
      ConcatMapLength(s[..|s| - 1], f);
    }
  }

  /** Position of the first occurrence of `x` in `s`. */
  function FirstIndex<T(==)>(s: seq<T>, x: T): (i: nat)
    requires x in s
    ensures i < |s| && s[i] == x && x !in s[..i]
  {
    if s[0] == x then 0 else 1 + FirstIndex(s[1..], x)
  }

  /**
   * Keep-first de-duplication (`DataFrame.drop_duplicates()`): every element
   * whose equal already occurred earlier is dropped.
   */
  function Dedup<T(==)>(s: seq<T>): (r: seq<T>)
    ensures Distinct(r)
    ensures forall x :: x in r ==> x in s
    ensures forall x :: x in s ==> x in r
  {
    if s == [] then []
    else
      var d := Dedup(s[..|s| - 1]);
      var x := s[|s| - 1];
      assert s == s[..|s| - 1] + [x];
      if x in d then d else d + [x]
  }

  lemma {:induction false} SubseqAppend<T>(a: seq<T>, b: seq<T>, x: T)
    requires IsSubseq(a, b)
    ensures IsSubseq(a, b + [x]) && IsSubseq(a + [x], b + [x])
    decreases |b|
  {
    if b == [] {
      assert a == [];
      assert ([] + [x])[1..] == [];
    } else {
      assert (b + [x])[1..] == b[1..] + [x];
      if a == [] {
        SubseqAppend(a, b[1..], x);
        assert IsSubseq([x], [x]);
        SubseqEmptyAppend(b, x);
      } else if a[0] == b[0] {
        SubseqAppend(a[1..], b[1..], x);
        assert (a + [x])[1..] == a[1..] + [x];
      } else {
        SubseqAppend(a, b[1..], x);
      }
    }
  }

  lemma {:induction false} SubseqEmptyAppend<T>(b: seq<T>, x: T)
    ensures IsSubseq([x], b + [x])
    decreases |b|
  {
    if b != [] {
      assert (b + [x])[1..] == b[1..] + [x];
      SubseqEmptyAppend(b[1..], x);
      SubseqDropHead([x], b + [x]);
    }
  }

  /** De-duplication keeps what it keeps in the original order. */
  lemma {:induction false} DedupIsSubseq<T>(s: seq<T>)
    ensures IsSubseq(Dedup(s), s)
  {
    if s != [] {
      var p, x := s[..|s| - 1], s[|s| - 1];
      DedupIsSubseq(p);
      SubseqAppend(Dedup(p), p, x);
      assert s == p + [x];
    }
  }

  lemma {:induction false} FirstIndexInPrefix<T>(s: seq<T>, n: nat, x: T)
    requires n <= |s| && x in s[..n]
    ensures FirstIndex(s, x) == FirstIndex(s[..n], x)
  {
    if s[0] != x {
      assert s[1..][..n - 1] == s[..n][1..];
      FirstIndexInPrefix(s[1..], n - 1, x);
    }
  }

  /**
   * The kept elements appear in the order of their first occurrences: for
   * any two of them, the earlier one first occurred earlier in the input.
   */
  lemma {:induction false} DedupKeepsFirstOrder<T>(s: seq<T>)
    ensures forall i, j :: 0 <= i < j < |Dedup(s)| ==>
      FirstIndex(s, Dedup(s)[i]) < FirstIndex(s, Dedup(s)[j])
  {
    if s != [] {
      var p, x := s[..|s| - 1], s[|s| - 1];
      var d := Dedup(p);
      DedupKeepsFirstOrder(p);
      forall y | y in d ensures FirstIndex(s, y) == FirstIndex(p, y) {
        assert p == s[..|s| - 1];
        FirstIndexInPrefix(s, |s| - 1, y);
      }
      if x !in d {
        assert x !in p;
        assert FirstIndex(s, x) == |s| - 1 by {
          assert s[..|s| - 1] == p;
        }
      }
    }
  }

  /** De-duplicating rows that are already distinct changes nothing. */
  lemma {:induction false} DedupOfDistinct<T>(s: seq<T>)
    requires Distinct(s)
    ensures Dedup(s) == s
  {
    if s != [] {
      var p, x := s[..|s| - 1], s[|s| - 1];
      assert Distinct(p);
      DedupOfDistinct(p);
      assert x !in p;
    }
  }

  /** De-duplication is idempotent. */
  lemma DedupIdempotent<T>(s: seq<T>)
    ensures Dedup(Dedup(s)) == Dedup(s)
  {
    DedupOfDistinct(Dedup(s));
  }

  /**
   * Python's `dict`: a map together with the order in which its keys were
   * first inserted (assigning to an existing key keeps its place).
   */
  datatype ODict<K, V> = ODict(keys: seq<K>, items: map<K, V>)

  predicate ValidDict<K, V>(d: ODict<K, V>) {
    && Distinct(d.keys)
    && (forall k :: k in d.items ==> k in d.keys)
    && (forall k :: k in d.keys ==> k in d.items)
  }

  function EmptyDict<K, V>(): (d: ODict<K, V>)
    ensures ValidDict(d) && d.keys == []
  {
    ODict([], map[])
  }

  /** `d[k] = v`: a new key goes to the end of the key order, an existing one keeps its place. */
  function Put<K, V>(d: ODict<K, V>, k: K, v: V): (r: ODict<K, V>)
    ensures ValidDict(d) ==> ValidDict(r)
    ensures r.keys == if k in d.items then d.keys else d.keys + [k]
    ensures r.items == d.items[k := v]
  {
    ODict(if k in d.items then d.keys else d.keys + [k], d.items[k := v])
  }

  /** Assigning a key twice leaves what the second assignment wrote. */
  lemma PutTwice<K, V>(d: ODict<K, V>, k: K, v1: V, v2: V)
    ensures Put(Put(d, k, v1), k, v2) == Put(d, k, v2)
  {
    assert d.items[k := v1][k := v2] == d.items[k := v2];
  }

  /** The total size of the values stored under `keys`, a missing key counting 0. */
  function SumOver<K, V>(keys: seq<K>, m: map<K, V>, size: V -> nat): nat {
    if keys == [] then 0
    else
      var k := keys[|keys| - 1];
      SumOver(keys[..|keys| - 1], m, size) + (if k in m then size(m[k]) else 0)
  }

  /** Overwriting one value changes the total by the difference of the two sizes. */
  lemma {:induction false} SumOverUpdate<K, V>(keys: seq<K>, m: map<K, V>, k: K, v: V, size: V -> nat)
    requires Distinct(keys)
    ensures SumOver(keys, m[k := v], size) ==
      SumOver(keys, m, size) + (if k in keys then size(v) - (if k in m then size(m[k]) else 0) else 0)
  {
    if keys != [] {
      var front := keys[..|keys| - 1];
      assert Distinct(front);
      SumOverUpdate(front, m, k, v, size);
      assert k in keys <==> k in front || k == keys[|keys| - 1];
    }
  }

  /** The total size of a dict's values. */
  function DictSize<K, V>(d: ODict<K, V>, size: V -> nat): nat {
    SumOver(d.keys, d.items, size)
  }

  /** `d[k] = v` replaces the size of the old value (0 when absent) by the size of `v`. */
  lemma DictSizePut<K, V>(d: ODict<K, V>, k: K, v: V, size: V -> nat)
    requires ValidDict(d)
    ensures DictSize(Put(d, k, v), size) ==
      DictSize(d, size) - (if k in d.items then size(d.items[k]) else 0) + size(v)
  {
    SumOverUpdate(d.keys, d.items, k, v, size);
    if k !in d.items {
      var ks := d.keys + [k];
      assert ks[..|ks| - 1] == d.keys;
    }
  }
}

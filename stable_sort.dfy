/** `Array.prototype.sort` with a consistent comparator, which since
    ECMAScript 2019 is stable: the elements are ordered by a key under a
    total preorder, and elements whose keys are equivalent keep their
    original relative order. The comparator `(a, b) => c(a, b)` is
    represented by the preorder `le(ka, kb)` meaning `c(a, b) <= 0`. */
module StableSort {

  /** Transitivity of `le` for one triple of keys. Proofs name the triple
      they need, so the solver does not chain transitivity without end. */
  ghost predicate TransitiveAt<K>(le: (K, K) -> bool, a: K, b: K, c: K) {
    le(a, b) && le(b, c) ==> le(a, c)
  }

  /** `le` is total (hence reflexive) and transitive. */
  ghost predicate TotalPreorder<K(!new)>(le: (K, K) -> bool) {
    && (forall a, b :: le(a, b) || le(b, a))
    && (forall a, b, c {:trigger TransitiveAt(le, a, b, c)} :: TransitiveAt(le, a, b, c))
  }

  /** Two keys the comparator calls equal. */
  predicate Equiv<K>(le: (K, K) -> bool, a: K, b: K) {
    le(a, b) && le(b, a)
  }

  /** Every element's key is `le` every later element's key. */
  ghost predicate SortedBy<T, K>(s: seq<T>, key: T -> K, le: (K, K) -> bool) {
    forall i, j :: 0 <= i < j < |s| ==> le(key(s[i]), key(s[j]))
  }

  /** The elements of `s` whose key is equivalent to `k`, in their order in `s`. */
  function EquivPart<T, K>(s: seq<T>, key: T -> K, le: (K, K) -> bool, k: K): (r: seq<T>)
    ensures |r| <= |s|
  {
    if s == [] then []
    else (if Equiv(le, key(s[0]), k) then [s[0]] else []) + EquivPart(s[1..], key, le, k)
  }

  /** `x` put in front of the first element of `s` whose key it is `le`. */
  function Insert<T, K>(x: T, s: seq<T>, key: T -> K, le: (K, K) -> bool): (r: seq<T>)
    ensures multiset(r) == multiset(s) + multiset{x}
  {
    if s == [] || le(key(x), key(s[0])) then [x] + s
    else
      assert s == [s[0]] + s[1..];
      [s[0]] + Insert(x, s[1..], key, le)
  }

  /** Stable insertion sort of `s` by `key` under `le`. */
  function SortBy<T, K>(s: seq<T>, key: T -> K, le: (K, K) -> bool): (r: seq<T>)
    ensures multiset(r) == multiset(s)
    ensures |r| == |s|
  {
    if s == [] then []
    else
      assert s == [s[0]] + s[1..];
      Insert(s[0], SortBy(s[1..], key, le), key, le)
  }

  lemma {:induction false} InsertSorted<T, K(!new)>(x: T, s: seq<T>, key: T -> K, le: (K, K) -> bool)
    requires TotalPreorder(le)
    requires SortedBy(s, key, le)
    ensures SortedBy(Insert(x, s, key, le), key, le)
  {
    if s == [] || le(key(x), key(s[0])) {
      var r := [x] + s;
      forall i, j | 0 <= i < j < |r| ensures le(key(r[i]), key(r[j])) {
        if i == 0 {
          assert r[j] == s[j - 1];
          if j > 1 {
            assert le(key(s[0]), key(s[j - 1]));
            assert TransitiveAt(le, key(x), key(s[0]), key(s[j - 1]));
          }
        } else {
          assert r[i] == s[i - 1] && r[j] == s[j - 1];
        }
      }
    } else {
      var t := Insert(x, s[1..], key, le);
      assert SortedBy(s[1..], key, le) by {
        forall i, j | 0 <= i < j < |s[1..]| ensures le(key(s[1..][i]), key(s[1..][j])) {
          assert s[1..][i] == s[i + 1] && s[1..][j] == s[j + 1];
        }
      }
      InsertSorted(x, s[1..], key, le);
      var r := [s[0]] + t;
      forall j | 0 <= j < |t| ensures le(key(s[0]), key(t[j])) {
        assert t[j] in multiset(t);
        assert t[j] in multiset(s[1..]) + multiset{x};
        if t[j] in multiset(s[1..]) {
          var m :| 0 <= m < |s[1..]| && s[1..][m] == t[j];
          assert s[1..][m] == s[m + 1];
        }
      }
      forall i, j | 0 <= i < j < |r| ensures le(key(r[i]), key(r[j])) {
        if i == 0 {
          assert r[j] == t[j - 1];
        } else {
          assert r[i] == t[i - 1] && r[j] == t[j - 1];
        }
      }
    }
  }

  /** The result of `SortBy` is sorted. */
  lemma {:induction false} SortBySorted<T, K(!new)>(s: seq<T>, key: T -> K, le: (K, K) -> bool)
    requires TotalPreorder(le)
    ensures SortedBy(SortBy(s, key, le), key, le)
  {
    if s != [] {
      SortBySorted(s[1..], key, le);
      InsertSorted(s[0], SortBy(s[1..], key, le), key, le);
    }
  }

  lemma EquivPartCons<T, K>(x: T, s: seq<T>, key: T -> K, le: (K, K) -> bool, k: K)
    ensures EquivPart([x] + s, key, le, k)
         == (if Equiv(le, key(x), k) then [x] else []) + EquivPart(s, key, le, k)
  {
    assert ([x] + s)[1..] == s;
  }

  /** Inserting `x` moves it only past elements with strictly smaller keys,
      so no class of equivalent elements changes its order. */
  lemma {:induction false} InsertStable<T, K(!new)>(x: T, s: seq<T>, key: T -> K, le: (K, K) -> bool, k: K)
    requires TotalPreorder(le)
    ensures EquivPart(Insert(x, s, key, le), key, le, k) == EquivPart([x] + s, key, le, k)
  {
    if s != [] && !le(key(x), key(s[0])) {
      var s0, rest := s[0], s[1..];
      assert s == [s0] + rest;
      InsertStable(x, rest, key, le, k);
      EquivPartCons(s0, Insert(x, rest, key, le), key, le, k);
      EquivPartCons(x, rest, key, le, k);
      EquivPartCons(x, s, key, le, k);
      EquivPartCons(s0, rest, key, le, k);
      assert TransitiveAt(le, key(x), k, key(s0));
      assert !(Equiv(le, key(x), k) && Equiv(le, key(s0), k));
    }
  }

  /** `SortBy` is stable: the elements of every equivalence class of keys
      appear in the result in the order they had in the input. */
  lemma {:induction false} SortByStable<T, K(!new)>(s: seq<T>, key: T -> K, le: (K, K) -> bool, k: K)
    requires TotalPreorder(le)
    ensures EquivPart(SortBy(s, key, le), key, le, k) == EquivPart(s, key, le, k)
  {
    if s != [] {
      var rest := SortBy(s[1..], key, le);
      InsertStable(s[0], rest, key, le, k);
      SortByStable(s[1..], key, le, k);
      EquivPartCons(s[0], rest, key, le, k);
      EquivPartCons(s[0], s[1..], key, le, k);
      assert s == [s[0]] + s[1..];
    }
  }

  lemma SortedTail<T, K>(s: seq<T>, key: T -> K, le: (K, K) -> bool)
    requires s != [] && SortedBy(s, key, le)
    ensures SortedBy(s[1..], key, le)
  {
    forall i, j | 0 <= i < j < |s[1..]| ensures le(key(s[1..][i]), key(s[1..][j])) {
      assert s[1..][i] == s[i + 1] && s[1..][j] == s[j + 1];
    }
  }

  lemma MultisetTail<T>(a: seq<T>, b: seq<T>)
    requires a != [] && b != [] && a[0] == b[0]
    requires multiset(a) == multiset(b)
    ensures multiset(a[1..]) == multiset(b[1..])
  {
    assert a == [a[0]] + a[1..];
    assert b == [b[0]] + b[1..];
    assert multiset(a[1..]) == multiset(a) - multiset([a[0]]);
    assert multiset(b[1..]) == multiset(b) - multiset([b[0]]);
  }

  /** The first element of a sorted sequence has a key `le` that of every
      element of the sequence. */
  lemma HeadLeAll<T, K>(s: seq<T>, key: T -> K, le: (K, K) -> bool, x: T)
    requires SortedBy(s, key, le) && x in multiset(s)
    ensures le(key(s[0]), key(x)) || s[0] == x
  {
    var m :| 0 <= m < |s| && s[m] == x;
    if m > 0 { assert le(key(s[0]), key(s[m])); }
  }

  /** A sorted, stable permutation of `s` is unique, so any stable sort
      (in particular the engine's own `Array.prototype.sort`) returns the
      same sequence as `SortBy`. */
  lemma {:induction false} StableSortUnique<T, K(!new)>(a: seq<T>, b: seq<T>, key: T -> K, le: (K, K) -> bool)
    requires TotalPreorder(le)
    requires SortedBy(a, key, le) && SortedBy(b, key, le)
    requires multiset(a) == multiset(b)
    requires forall k :: EquivPart(a, key, le, k) == EquivPart(b, key, le, k)
    ensures a == b
  {
    assert |a| == |b| by { assert |multiset(a)| == |multiset(b)|; }
    if a != [] {
      var a0, b0 := a[0], b[0];
      assert a0 in multiset(b) && b0 in multiset(a);
      HeadLeAll(b, key, le, a0);
      HeadLeAll(a, key, le, b0);
      var k := key(a0);
      assert a == [a0] + a[1..] && b == [b0] + b[1..];
      EquivPartCons(a0, a[1..], key, le, k);
      EquivPartCons(b0, b[1..], key, le, k);
      assert EquivPart(a, key, le, k)[0] == a0;
      assert EquivPart(b, key, le, k)[0] == b0;
      assert a0 == b0;
      MultisetTail(a, b);
      forall k' ensures EquivPart(a[1..], key, le, k') == EquivPart(b[1..], key, le, k') {
        EquivPartCons(a0, a[1..], key, le, k');
        EquivPartCons(b0, b[1..], key, le, k');
        var p := if Equiv(le, key(a0), k') then [a0] else [];
        var x, y := EquivPart(a[1..], key, le, k'), EquivPart(b[1..], key, le, k');
        assert p + x == p + y;
        assert x == (p + x)[|p|..] && y == (p + y)[|p|..];
      }
      SortedTail(a, key, le);
      SortedTail(b, key, le);
      StableSortUnique(a[1..], b[1..], key, le);
    }
  }

  /** Sorting a sequence that is already sorted leaves it as it is. */
  lemma SortBySortedIsIdentity<T, K(!new)>(s: seq<T>, key: T -> K, le: (K, K) -> bool)
    requires TotalPreorder(le)
    requires SortedBy(s, key, le)
    ensures SortBy(s, key, le) == s
  {
    SortBySorted(s, key, le);
    forall k ensures EquivPart(SortBy(s, key, le), key, le, k) == EquivPart(s, key, le, k) {
      SortByStable(s, key, le, k);
    }
    StableSortUnique(SortBy(s, key, le), s, key, le);
  }

  /** Integer order, the preorder behind a comparator `(a, b) => ka - kb`. */
  predicate IntLe(a: int, b: int) {
    a <= b
  }

  lemma IntLeTotalPreorder()
    ensures TotalPreorder(IntLe)
  {
  }
}

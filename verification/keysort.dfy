/**
 * Sorting dictionary keys by the size of their candidate sets, the way
 * Python's stable `sorted` does it: keys of equal size keep the order in
 * which the dictionary holds them.
 */
module KeySort {
  predicate Distinct<T(==)>(o: seq<T>) {
    forall i, j :: 0 <= i < j < |o| ==> o[i] != o[j]
  }

  /** The number of candidates of key x (0 for a key the map lacks). */
  function Count<T(==)>(m: map<T, set<int>>, x: T): nat {
    if x in m then |m[x]| else 0
  }

  predicate HasSize<T(==)>(m: map<T, set<int>>, x: T, size: nat) {
    x in m && |m[x]| == size
  }

  /** The keys of `o` whose candidate set has exactly `size` members, in the order of `o`. */
  function Bucket<T(==)>(o: seq<T>, m: map<T, set<int>>, size: nat): seq<T> {
    if o == [] then []
    else (if HasSize(m, o[0], size) then [o[0]] else []) + Bucket(o[1..], m, size)
  }

  /**
   * sorted(keys, key=len(m[key]), reverse=True) for candidate sets of at
   * most `size` members: the keys with `size` candidates, then those with
   * size - 1, ..., down to those with none, each group in the order of `o`.
   */
  function SizeDescendingFrom<T(==)>(o: seq<T>, m: map<T, set<int>>, size: nat): seq<T>
    decreases size
  {
    Bucket(o, m, size) + (if size == 0 then [] else SizeDescendingFrom(o, m, size - 1))
  }

  predicate Descending<T(==)>(m: map<T, set<int>>, d: seq<T>) {
    forall i, j :: 0 <= i < j < |d| ==> Count(m, d[i]) >= Count(m, d[j])
  }

  lemma {:induction false} BucketMember<T>(o: seq<T>, m: map<T, set<int>>, size: nat, x: T)
    ensures x in Bucket(o, m, size) <==> x in o && HasSize(m, x, size)
  {
    if o != [] {
      BucketMember(o[1..], m, size, x);
      assert o == [o[0]] + o[1..];
    }
  }

  lemma {:induction false} DescMember<T>(o: seq<T>, m: map<T, set<int>>, size: nat, x: T)
    ensures x in SizeDescendingFrom(o, m, size) <==> x in o && x in m && |m[x]| <= size
    decreases size
  {
    BucketMember(o, m, size, x);
    var b := Bucket(o, m, size);
    if size > 0 {
      DescMember(o, m, size - 1, x);
      var rest := SizeDescendingFrom(o, m, size - 1);
      assert x in b + rest <==> x in b || x in rest;
    } else {
      assert SizeDescendingFrom(o, m, size) == b;
    }
  }

  /** Where the j-th sorted key comes from: the leading bucket or the rest. */
  lemma DescIndex<T>(o: seq<T>, m: map<T, set<int>>, size: nat, j: int)
    requires 0 <= j < |SizeDescendingFrom(o, m, size)|
    ensures j < |Bucket(o, m, size)| ==> SizeDescendingFrom(o, m, size)[j] == Bucket(o, m, size)[j]
    ensures j >= |Bucket(o, m, size)| ==>
              && size > 0
              && SizeDescendingFrom(o, m, size)[j] == SizeDescendingFrom(o, m, size - 1)[j - |Bucket(o, m, size)|]
  {
  }

  lemma BucketSizes<T>(o: seq<T>, m: map<T, set<int>>, size: nat)
    ensures forall i :: 0 <= i < |Bucket(o, m, size)| ==> Count(m, Bucket(o, m, size)[i]) == size
  {
    var b := Bucket(o, m, size);
    forall i | 0 <= i < |b| ensures Count(m, b[i]) == size {
      assert b[i] in b;
      BucketMember(o, m, size, b[i]);
    }
  }

  lemma DescBound<T>(o: seq<T>, m: map<T, set<int>>, size: nat)
    ensures forall i :: 0 <= i < |SizeDescendingFrom(o, m, size)| ==> Count(m, SizeDescendingFrom(o, m, size)[i]) <= size
  {
    var d := SizeDescendingFrom(o, m, size);
    forall i | 0 <= i < |d| ensures Count(m, d[i]) <= size {
      assert d[i] in d;
      DescMember(o, m, size, d[i]);
    }
  }

  lemma DescendingConcat<T>(m: map<T, set<int>>, b: seq<T>, rest: seq<T>, size: nat)
    requires forall i :: 0 <= i < |b| ==> Count(m, b[i]) == size
    requires forall i :: 0 <= i < |rest| ==> Count(m, rest[i]) <= size
    requires Descending(m, rest)
    ensures Descending(m, b + rest)
  {
    var d := b + rest;
    forall i, j | 0 <= i < j < |d| ensures Count(m, d[i]) >= Count(m, d[j]) {
      if j < |b| {
      } else if i < |b| {
        assert d[j] == rest[j - |b|];
      } else {
        assert d[i] == rest[i - |b|] && d[j] == rest[j - |b|];
      }
    }
  }

  lemma DescendingStep<T>(o: seq<T>, m: map<T, set<int>>, size: nat)
    requires size > 0 ==> Descending(m, SizeDescendingFrom(o, m, size - 1))
    ensures Descending(m, SizeDescendingFrom(o, m, size))
  {
    var rest := if size == 0 then [] else SizeDescendingFrom(o, m, size - 1);
    if size > 0 {
      DescBound(o, m, size - 1);
    }
    BucketSizes(o, m, size);
    DescendingConcat(m, Bucket(o, m, size), rest, size);
  }

  /** The keys come out largest candidate set first. */
  lemma {:induction false} SizeDescendingSorted<T>(o: seq<T>, m: map<T, set<int>>, size: nat)
    ensures Descending(m, SizeDescendingFrom(o, m, size))
    decreases size
  {
    if size > 0 {
      SizeDescendingSorted(o, m, size - 1);
    }
    DescendingStep(o, m, size);
  }

  lemma {:induction false} BucketDistinct<T>(o: seq<T>, m: map<T, set<int>>, size: nat)
    requires Distinct(o)
    ensures Distinct(Bucket(o, m, size))
  {
    if o != [] {
      BucketDistinct(o[1..], m, size);
      BucketMember(o[1..], m, size, o[0]);
      assert o[0] !in o[1..] by {
        forall j | 0 <= j < |o[1..]| ensures o[1..][j] != o[0] {
          assert o[1..][j] == o[j + 1];
        }
      }
    }
  }

  lemma DistinctConcat<T>(b: seq<T>, rest: seq<T>)
    requires Distinct(b) && Distinct(rest)
    requires forall i, j :: 0 <= i < |b| && 0 <= j < |rest| ==> b[i] != rest[j]
    ensures Distinct(b + rest)
  {
    var d := b + rest;
    forall i, j | 0 <= i < j < |d| ensures d[i] != d[j] {
      if j < |b| {
      } else if i < |b| {
        assert d[j] == rest[j - |b|];
      } else {
        assert d[i] == rest[i - |b|] && d[j] == rest[j - |b|];
      }
    }
  }

  lemma DistinctStep<T>(o: seq<T>, m: map<T, set<int>>, size: nat)
    requires Distinct(o)
    requires size > 0 ==> Distinct(SizeDescendingFrom(o, m, size - 1))
    ensures Distinct(SizeDescendingFrom(o, m, size))
  {
    var b := Bucket(o, m, size);
    var rest := if size == 0 then [] else SizeDescendingFrom(o, m, size - 1);
    BucketDistinct(o, m, size);
    BucketSizes(o, m, size);
    if size > 0 {
      DescBound(o, m, size - 1);
    }
    DistinctConcat(b, rest);
  }

  /** Sorting keeps the keys distinct. */
  lemma {:induction false} SizeDescendingDistinct<T>(o: seq<T>, m: map<T, set<int>>, size: nat)
    requires Distinct(o)
    ensures Distinct(SizeDescendingFrom(o, m, size))
    decreases size
  {
    if size > 0 {
      SizeDescendingDistinct(o, m, size - 1);
    }
    DistinctStep(o, m, size);
  }

  /** Some key of `o` up to index i heads the bucket of o[i]'s size. */
  lemma {:induction false} BucketHead<T>(o: seq<T>, m: map<T, set<int>>, size: nat, i: int)
    requires 0 <= i < |o| && HasSize(m, o[i], size)
    ensures |Bucket(o, m, size)| > 0
    ensures exists j :: 0 <= j <= i && o[j] == Bucket(o, m, size)[0]
  {
    if !HasSize(m, o[0], size) {
      BucketHead(o[1..], m, size, i - 1);
      var j :| 0 <= j <= i - 1 && o[1..][j] == Bucket(o[1..], m, size)[0];
      assert o[j + 1] == Bucket(o, m, size)[0];
    }
  }

  /**
   * Walking the sorted keys, the first one with `want` candidates is the
   * first key of `o` with `want` candidates: keys of equal size keep their order.
   */
  lemma {:induction false} FirstOfSize<T>(o: seq<T>, m: map<T, set<int>>, size: nat, want: nat, i: int)
    requires 0 <= i < |SizeDescendingFrom(o, m, size)|
    requires HasSize(m, SizeDescendingFrom(o, m, size)[i], want)
    requires forall j :: 0 <= j < i ==> !HasSize(m, SizeDescendingFrom(o, m, size)[j], want)
    ensures |Bucket(o, m, want)| > 0 && SizeDescendingFrom(o, m, size)[i] == Bucket(o, m, want)[0]
    decreases size
  {
    var b := Bucket(o, m, size);
    DescIndex(o, m, size, i);
    if i < |b| {
      DescIndex(o, m, size, 0);
      FirstOfTopSize(o, m, size, want, i);
    } else {
      var rest := SizeDescendingFrom(o, m, size - 1);
      forall j | 0 <= j < i - |b| ensures !HasSize(m, rest[j], want) {
        DescIndex(o, m, size, j + |b|);
      }
      FirstOfSize(o, m, size - 1, want, i - |b|);
    }
  }

  /** FirstOfSize when the key found lies in the first bucket: it is that bucket's head. */
  lemma FirstOfTopSize<T>(o: seq<T>, m: map<T, set<int>>, size: nat, want: nat, i: int)
    requires 0 <= i < |Bucket(o, m, size)|
    requires HasSize(m, Bucket(o, m, size)[i], want)
    requires i > 0 ==> !HasSize(m, Bucket(o, m, size)[0], want)
    ensures i == 0 && want == size
  {
    var b := Bucket(o, m, size);
    assert b[i] in b;
    BucketMember(o, m, size, b[i]);
    assert b[0] in b;
    BucketMember(o, m, size, b[0]);
  }

  /**
   * sorted(keys, key=len(m[key]))[0]: the index of the first key with the
   * fewest candidates (the sort is stable, so ties go to the earlier key).
   */
  function FewestIndex<T(==)>(o: seq<T>, m: map<T, set<int>>): (i: nat)
    requires |o| > 0
    ensures i < |o|
    ensures forall j :: 0 <= j < |o| ==> Count(m, o[i]) <= Count(m, o[j])
    ensures forall j :: 0 <= j < i ==> Count(m, o[j]) > Count(m, o[i])
    decreases |o|
  {
    if |o| == 1 then 0
    else
      var k := 1 + FewestIndex(o[1..], m);
      assert forall j :: 1 <= j < |o| ==> o[j] == o[1..][j - 1];
      if Count(m, o[0]) <= Count(m, o[k]) then 0 else k
  }
}

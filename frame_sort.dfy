/** The sort of the extracted frames: `Array.prototype.sort` with the key
    comparator. Section 22.1.3.27 of ECMA-262 (2019 edition) makes that sort
    stable, and the comparator is consistent (FrameNames.Compare), so the
    result is fully determined; SortByKey computes it as an insertion sort
    driven by the same comparator. */
module FrameSort {
  import opened Media
  import opened FrameNames

  /** One element of `extractedFiles`: the key parsed from the entry name and
      the file built from the entry. */
  datatype Extracted = Extracted(key: FrameKey, file: File)

  /** Ascending by key, lexicographically. */
  ghost predicate Sorted(s: seq<Extracted>) {
    forall i, j :: 0 <= i < j < |s| ==> KeyLeq(s[i].key, s[j].key)
  }

  /** The elements of `s` whose key is `k`, in their order in `s`. */
  function WithKey(s: seq<Extracted>, k: FrameKey): seq<Extracted> {
    if s == [] then []
    else (if s[0].key == k then [s[0]] else []) + WithKey(s[1..], k)
  }

  lemma {:induction false} WithKeyMembers(s: seq<Extracted>, k: FrameKey, x: Extracted)
    ensures x in WithKey(s, k) <==> x in s && x.key == k
  {
    if s != [] {
      WithKeyMembers(s[1..], k, x);
      assert s == [s[0]] + s[1..];
    }
  }

  lemma {:induction false} WithKeyCons(a: Extracted, r: seq<Extracted>, k: FrameKey)
    ensures WithKey([a] + r, k) == (if a.key == k then [a] else []) + WithKey(r, k)
  {
    assert ([a] + r)[1..] == r;
  }

  /** Places `x` before the first element it does not compare greater than. */
  function Insert(x: Extracted, s: seq<Extracted>): seq<Extracted> {
    if s == [] then [x]
    else if Compare(x.key, s[0].key) <= 0 then [x] + s
    else [s[0]] + Insert(x, s[1..])
  }

  /** `extractedFiles.sort(comparator)`, as the value it leaves in the array. */
  function SortByKey(s: seq<Extracted>): seq<Extracted> {
    if s == [] then [] else Insert(s[0], SortByKey(s[1..]))
  }

  lemma {:induction false} SortedCons(a: Extracted, r: seq<Extracted>)
    requires Sorted(r)
    requires r != [] ==> KeyLeq(a.key, r[0].key)
    ensures Sorted([a] + r)
  {
    var s := [a] + r;
    forall i, j | 0 <= i < j < |s| ensures KeyLeq(s[i].key, s[j].key) {
      if i == 0 && j > 1 {
        assert KeyLeq(r[0].key, r[j - 1].key);
      }
    }
  }

  lemma {:induction false} SortedTail(s: seq<Extracted>)
    requires Sorted(s) && s != []
    ensures Sorted(s[1..])
  {
    forall i, j | 0 <= i < j < |s[1..]| ensures KeyLeq(s[1..][i].key, s[1..][j].key) {
      assert s[1..][i] == s[i + 1] && s[1..][j] == s[j + 1];
    }
  }

  lemma {:induction false} InsertSorted(x: Extracted, s: seq<Extracted>)
    requires Sorted(s)
    ensures Insert(x, s) != [] && Insert(x, s)[0] == (if s != [] && Compare(x.key, s[0].key) > 0 then s[0] else x)
    ensures Sorted(Insert(x, s))
  {
    if s == [] {
    } else if Compare(x.key, s[0].key) <= 0 {
      SortedCons(x, s);
    } else {
      SortedTail(s);
      InsertSorted(x, s[1..]);
      var r := Insert(x, s[1..]);
      if |s| > 1 {
        assert KeyLeq(s[0].key, s[1].key);
      }
      SortedCons(s[0], r);
    }
  }

  lemma {:induction false} InsertPermutation(x: Extracted, s: seq<Extracted>)
    ensures multiset(Insert(x, s)) == multiset(s) + multiset{x}
  {
    if s != [] && Compare(x.key, s[0].key) > 0 {
      InsertPermutation(x, s[1..]);
      assert s == [s[0]] + s[1..];
    }
  }

  lemma {:induction false} InsertWithKey(x: Extracted, s: seq<Extracted>, k: FrameKey)
    ensures WithKey(Insert(x, s), k) == (if x.key == k then [x] else []) + WithKey(s, k)
  {
    if s == [] {
    } else if Compare(x.key, s[0].key) <= 0 {
      WithKeyCons(x, s, k);
    } else {
      InsertWithKey(x, s[1..], k);
      WithKeyCons(s[0], Insert(x, s[1..]), k);
    }
  }

  /** The sort orders its input ascending by key and loses or adds nothing. */
  lemma {:induction false} SortByKeySortedPermutation(s: seq<Extracted>)
    ensures Sorted(SortByKey(s))
    ensures multiset(SortByKey(s)) == multiset(s)
  {
    if s != [] {
      SortByKeySortedPermutation(s[1..]);
      InsertSorted(s[0], SortByKey(s[1..]));
      InsertPermutation(s[0], SortByKey(s[1..]));
      assert s == [s[0]] + s[1..];
    }
  }

  /** The sort is stable: the elements sharing a key keep their input order. */
  lemma {:induction false} SortByKeyStable(s: seq<Extracted>, k: FrameKey)
    ensures WithKey(SortByKey(s), k) == WithKey(s, k)
  {
    if s != [] {
      SortByKeyStable(s[1..], k);
      InsertWithKey(s[0], SortByKey(s[1..]), k);
    }
  }

  /** In sorted sequences that agree key by key, the first elements agree. */
  lemma {:induction false} HeadsAgree(o: seq<Extracted>, p: seq<Extracted>)
    requires Sorted(o) && Sorted(p)
    requires forall k :: WithKey(o, k) == WithKey(p, k)
    requires o != [] || p != []
    ensures o != [] && p != [] && o[0] == p[0]
  {
    if p != [] {
      WithKeyMembers(p, p[0].key, p[0]);
      WithKeyMembers(o, p[0].key, p[0]);
    }
    if o != [] {
      WithKeyMembers(o, o[0].key, o[0]);
      WithKeyMembers(p, o[0].key, o[0]);
    }
    var a, b := o[0], p[0];
    var i :| 0 <= i < |o| && o[i] == b;
    var j :| 0 <= j < |p| && p[j] == a;
    assert KeyLeq(a.key, b.key) by {
      if i > 0 { assert KeyLeq(o[0].key, o[i].key); }
    }
    assert KeyLeq(b.key, a.key) by {
      if j > 0 { assert KeyLeq(p[0].key, p[j].key); }
    }
    WithKeyCons(a, o[1..], a.key);
    WithKeyCons(b, p[1..], a.key);
    assert o == [a] + o[1..] && p == [b] + p[1..];
    assert WithKey(o, a.key)[0] == a && WithKey(p, a.key)[0] == b;
  }

  /** Two sorted sequences that agree, key by key, on their subsequences are equal. */
  lemma {:induction false} SortedDeterminedByKeys(o: seq<Extracted>, p: seq<Extracted>)
    requires Sorted(o) && Sorted(p)
    requires forall k :: WithKey(o, k) == WithKey(p, k)
    ensures o == p
    decreases |o|
  {
    if o != [] || p != [] {
      HeadsAgree(o, p);
      forall k ensures WithKey(o[1..], k) == WithKey(p[1..], k) {
        assert o == [o[0]] + o[1..] && p == [p[0]] + p[1..];
        WithKeyCons(o[0], o[1..], k);
        WithKeyCons(p[0], p[1..], k);
        var head := if o[0].key == k then [o[0]] else [];
        assert WithKey(o[1..], k) == WithKey(o, k)[|head|..];
        assert WithKey(p[1..], k) == WithKey(p, k)[|head|..];
      }
      SortedTail(o);
      SortedTail(p);
      SortedDeterminedByKeys(o[1..], p[1..]);
      assert o == [o[0]] + o[1..] && p == [p[0]] + p[1..];
    }
  }

  /** Any sorted sequence that keeps every key's elements in input order is the
      sort's result: a stable sort with this comparator has one possible outcome. */
  lemma {:induction false} SortByKeyUnique(s: seq<Extracted>, o: seq<Extracted>)
    requires Sorted(o)
    requires forall k :: WithKey(o, k) == WithKey(s, k)
    ensures o == SortByKey(s)
  {
    SortByKeySortedPermutation(s);
    forall k ensures WithKey(o, k) == WithKey(SortByKey(s), k) {
      SortByKeyStable(s, k);
    }
    SortedDeterminedByKeys(o, SortByKey(s));
  }

  /** No two elements share a key. */
  ghost predicate DistinctKeys(s: seq<Extracted>) {
    forall i, j :: 0 <= i < j < |s| ==> s[i].key != s[j].key
  }

  lemma {:induction false} WithKeyCount(s: seq<Extracted>, k: FrameKey, x: Extracted)
    ensures multiset(WithKey(s, k))[x] == if x.key == k then multiset(s)[x] else 0
  {
    if s != [] {
      WithKeyCount(s[1..], k, x);
      assert s == [s[0]] + s[1..];
    }
  }

  lemma {:induction false} DistinctKeysAtMostOne(s: seq<Extracted>, k: FrameKey)
    requires DistinctKeys(s)
    ensures |WithKey(s, k)| <= 1
  {
    if s != [] {
      assert DistinctKeys(s[1..]) by {
        forall i, j | 0 <= i < j < |s[1..]| ensures s[1..][i].key != s[1..][j].key {
          assert s[1..][i] == s[i + 1] && s[1..][j] == s[j + 1];
        }
      }
      DistinctKeysAtMostOne(s[1..], k);
      if s[0].key == k {
        forall j | 0 <= j < |s[1..]| ensures s[1..][j].key != k {
          assert s[1..][j] == s[j + 1];
        }
        NoKeyNoElements(s[1..], k);
      }
    }
  }

  lemma {:induction false} NoKeyNoElements(s: seq<Extracted>, k: FrameKey)
    requires forall j :: 0 <= j < |s| ==> s[j].key != k
    ensures WithKey(s, k) == []
  {
    if s != [] {
      NoKeyNoElements(s[1..], k);
    }
  }

  /** When no two frames share a key, the sorted result does not depend on the
      order the frames arrived in. */
  lemma {:induction false} SortByKeyOrderIndependent(s: seq<Extracted>, t: seq<Extracted>)
    requires multiset(s) == multiset(t)
    requires DistinctKeys(s)
    ensures SortByKey(s) == SortByKey(t)
  {
    forall k ensures WithKey(s, k) == WithKey(t, k) {
      var ws, wt := WithKey(s, k), WithKey(t, k);
      forall x ensures multiset(ws)[x] == multiset(wt)[x] {
        WithKeyCount(s, k, x);
        WithKeyCount(t, k, x);
      }
      assert multiset(ws) == multiset(wt);
      assert |ws| == |multiset(ws)| == |multiset(wt)| == |wt|;
      DistinctKeysAtMostOne(s, k);
      if |ws| == 1 {
        assert ws[0] in multiset(wt);
        assert ws == [ws[0]] && wt == [wt[0]];
        assert ws[0] == wt[0];
      }
    }
    SortByKeySortedPermutation(t);
    forall k ensures WithKey(SortByKey(t), k) == WithKey(s, k) {
      SortByKeyStable(t, k);
    }
    SortByKeyUnique(s, SortByKey(t));
  }
}

/** Sorting events by timestamp with ties kept in their original order,
    which is what `Array.prototype.sort` guarantees since ECMAScript 2019.
    `key` stands for the timestamp of an event. */
module TimestampSort {

  predicate SortedBy<T>(s: seq<T>, key: T -> int)
  {
    forall i, j :: 0 <= i < j < |s| ==> key(s[i]) <= key(s[j])
  }

  /** The elements of `s` whose key is `k`, in their order in `s`. */
  function WithKey<T>(s: seq<T>, key: T -> int, k: int): seq<T>
  {
    if |s| == 0 then []
    else WithKey(s[..|s| - 1], key, k) + (if key(s[|s| - 1]) == k then [s[|s| - 1]] else [])
  }

  /** Stability: for every key, `t` lists the elements with that key in the
      same order as `s` does. */
  ghost predicate SameTies<T>(s: seq<T>, t: seq<T>, key: T -> int)
  {
    forall k :: WithKey(s, key, k) == WithKey(t, key, k)
  }

  /** Inserts `x` after every element whose key is at most `x`'s, walking in
      from the right end, as one step of an insertion sort does. */
  function InsertLast<T>(s: seq<T>, x: T, key: T -> int): (r: seq<T>)
    ensures |r| == |s| + 1
  {
    if |s| == 0 || key(s[|s| - 1]) <= key(x) then s + [x]
    else InsertLast(s[..|s| - 1], x, key) + [s[|s| - 1]]
  }

  /** Insertion sort by key: the reference stable sort. */
  function StableSort<T>(s: seq<T>, key: T -> int): (r: seq<T>)
    ensures |r| == |s|
  {
    if |s| == 0 then [] else InsertLast(StableSort(s[..|s| - 1], key), s[|s| - 1], key)
  }

  lemma WithKeySnoc<T>(s: seq<T>, x: T, key: T -> int, k: int)
    ensures WithKey(s + [x], key, k) == WithKey(s, key, k) + (if key(x) == k then [x] else [])
  {
    assert (s + [x])[..|s|] == s;
  }

  /** Everything `WithKey` keeps is an element of `s` with key `k`. */
  lemma {:induction false} WithKeyMembers<T>(s: seq<T>, key: T -> int, k: int, x: T)
    requires x in WithKey(s, key, k)
    ensures x in s && key(x) == k
  {
    if |s| > 0 {
      var init := s[..|s| - 1];
      if x in WithKey(init, key, k) {
        WithKeyMembers(init, key, k, x);
        assert init[..] <= s;
      }
    }
  }

  lemma {:induction false} InsertLastMultiset<T>(s: seq<T>, x: T, key: T -> int)
    ensures multiset(InsertLast(s, x, key)) == multiset(s) + multiset{x}
  {
    if |s| > 0 && key(s[|s| - 1]) > key(x) {
      var init := s[..|s| - 1];
      InsertLastMultiset(init, x, key);
      assert s == init + [s[|s| - 1]];
    }
  }

  lemma {:induction false} InsertLastSorted<T>(s: seq<T>, x: T, key: T -> int)
    requires SortedBy(s, key)
    ensures SortedBy(InsertLast(s, x, key), key)
  {
    if |s| > 0 && key(s[|s| - 1]) > key(x) {
      var init, y := s[..|s| - 1], s[|s| - 1];
      InsertLastSorted(init, x, key);
      var left := InsertLast(init, x, key);
      InsertLastMultiset(init, x, key);
      forall i | 0 <= i < |left| ensures key(left[i]) <= key(y) {
        assert left[i] in multiset(left);
        if left[i] != x {
          assert left[i] in init;
        }
      }
    }
  }

  lemma {:induction false} InsertLastTies<T>(s: seq<T>, x: T, key: T -> int, k: int)
    ensures WithKey(InsertLast(s, x, key), key, k) == WithKey(s, key, k) + (if key(x) == k then [x] else [])
  {
    if |s| == 0 || key(s[|s| - 1]) <= key(x) {
      WithKeySnoc(s, x, key, k);
    } else {
      var init, y := s[..|s| - 1], s[|s| - 1];
      InsertLastTies(init, x, key, k);
      WithKeySnoc(InsertLast(init, x, key), y, key, k);
      assert s == init + [y];
    }
  }

  /** The reference sort orders by key. */
  lemma {:induction false} StableSortSorted<T>(s: seq<T>, key: T -> int)
    ensures SortedBy(StableSort(s, key), key)
  {
    if |s| > 0 {
      StableSortSorted(s[..|s| - 1], key);
      InsertLastSorted(StableSort(s[..|s| - 1], key), s[|s| - 1], key);
    }
  }

  /** The reference sort is stable. */
  lemma {:induction false} StableSortTies<T>(s: seq<T>, key: T -> int)
    ensures SameTies(s, StableSort(s, key), key)
  {
    if |s| > 0 {
      var init := s[..|s| - 1];
      StableSortTies(init, key);
      forall k ensures WithKey(s, key, k) == WithKey(StableSort(s, key), key, k) {
        InsertLastTies(StableSort(init, key), s[|s| - 1], key, k);
      }
    }
  }

  /** The reference sort only rearranges its input. */
  lemma {:induction false} StableSortPermutation<T>(s: seq<T>, key: T -> int)
    ensures multiset(StableSort(s, key)) == multiset(s)
  {
    if |s| > 0 {
      var init := s[..|s| - 1];
      StableSortPermutation(init, key);
      InsertLastMultiset(StableSort(init, key), s[|s| - 1], key);
      assert s == init + [s[|s| - 1]];
    }
  }

  lemma SortedLastIsMax<T>(s: seq<T>, key: T -> int, x: T)
    requires SortedBy(s, key) && x in s
    ensures key(x) <= key(s[|s| - 1])
  {
    var i :| 0 <= i < |s| && s[i] == x;
  }

  lemma LastHasTie<T>(s: seq<T>, key: T -> int)
    requires |s| > 0
    ensures WithKey(s, key, key(s[|s| - 1])) != []
  {
  }

  /** Sorted sequences with the same ties end in the same element. */
  lemma SameLast<T>(t: seq<T>, r: seq<T>, key: T -> int)
    requires SortedBy(t, key) && SortedBy(r, key) && SameTies(t, r, key)
    requires |t| > 0 && |r| > 0
    ensures t[|t| - 1] == r[|r| - 1]
  {
    var a, b := t[|t| - 1], r[|r| - 1];
    LastHasTie(t, key);
    LastHasTie(r, key);
    var ta, tb := WithKey(t, key, key(a)), WithKey(t, key, key(b));
    assert ta == WithKey(r, key, key(a)) && tb == WithKey(r, key, key(b));
    WithKeyMembers(r, key, key(a), ta[0]);
    WithKeyMembers(t, key, key(b), tb[0]);
    SortedLastIsMax(r, key, ta[0]);
    SortedLastIsMax(t, key, tb[0]);
    assert key(a) == key(b);
    assert t == t[..|t| - 1] + [a] && r == r[..|r| - 1] + [b];
    WithKeySnoc(t[..|t| - 1], a, key, key(a));
    WithKeySnoc(r[..|r| - 1], b, key, key(a));
    assert ta == WithKey(t[..|t| - 1], key, key(a)) + [a];
    assert ta == WithKey(r[..|r| - 1], key, key(a)) + [b];
    assert ta[|ta| - 1] == a;
  }

  /** Dropping a common last element keeps the ties equal. */
  lemma DropLastTies<T>(t: seq<T>, r: seq<T>, key: T -> int)
    requires SameTies(t, r, key)
    requires |t| > 0 && |r| > 0 && t[|t| - 1] == r[|r| - 1]
    ensures SameTies(t[..|t| - 1], r[..|r| - 1], key)
  {
    var t', r', a := t[..|t| - 1], r[..|r| - 1], t[|t| - 1];
    assert t == t' + [a] && r == r' + [a];
    forall k ensures WithKey(t', key, k) == WithKey(r', key, k) {
      WithKeySnoc(t', a, key, k);
      WithKeySnoc(r', a, key, k);
      var e := if key(a) == k then [a] else [];
      var x, y := WithKey(t', key, k), WithKey(r', key, k);
      assert x + e == y + e;
      assert x == (x + e)[..|x|];
      assert y == (y + e)[..|y|];
    }
  }

  /** Two sorted sequences with the same ties are equal. */
  lemma {:induction false} SortedTiesDetermine<T>(t: seq<T>, r: seq<T>, key: T -> int)
    requires SortedBy(t, key) && SortedBy(r, key)
    requires SameTies(t, r, key)
    ensures t == r
    decreases |t| + |r|
  {
    if |t| == 0 && |r| == 0 {
    } else if |t| == 0 {
      LastHasTie(r, key);
      assert false;
    } else if |r| == 0 {
      LastHasTie(t, key);
      assert false;
    } else {
      SameLast(t, r, key);
      DropLastTies(t, r, key);
      SortedTiesDetermine(t[..|t| - 1], r[..|r| - 1], key);
      assert t == t[..|t| - 1] + [t[|t| - 1]] && r == r[..|r| - 1] + [r[|r| - 1]];
    }
  }

  /** Any arrangement of `s` that is sorted by key and keeps ties in their
      original order is the reference sort's: every stable sort of `s`
      produces the same sequence. */
  lemma StableSortUnique<T>(s: seq<T>, t: seq<T>, key: T -> int)
    requires SortedBy(t, key) && SameTies(s, t, key)
    ensures t == StableSort(s, key)
  {
    StableSortSorted(s, key);
    StableSortTies(s, key);
    SortedTiesDetermine(t, StableSort(s, key), key);
  }

  /** The elements of `s` that pass `p`, in their order in `s`. */
  function Filter<T>(s: seq<T>, p: T -> bool): seq<T>
  {
    if |s| == 0 then []
    else Filter(s[..|s| - 1], p) + (if p(s[|s| - 1]) then [s[|s| - 1]] else [])
  }

  lemma {:induction false} FilterMembers<T>(s: seq<T>, p: T -> bool, x: T)
    requires x in Filter(s, p)
    ensures x in s && p(x)
  {
    if |s| > 0 {
      var init := s[..|s| - 1];
      if x in Filter(init, p) {
        FilterMembers(init, p, x);
        assert init <= s;
      }
    }
  }

  /** Filtering and selecting one key's elements commute. */
  lemma {:induction false} FilterWithKey<T>(s: seq<T>, p: T -> bool, key: T -> int, k: int)
    ensures WithKey(Filter(s, p), key, k) == Filter(WithKey(s, key, k), p)
  {
    if |s| > 0 {
      var init, x := s[..|s| - 1], s[|s| - 1];
      FilterWithKey(init, p, key, k);
      var f, w := Filter(init, p), WithKey(init, key, k);
      if p(x) {
        WithKeySnoc(f, x, key, k);
      } else {
        assert f + [] == f;
      }
      if key(x) == k {
        assert (w + [x])[..|w|] == w;
      } else {
        assert w + [] == w;
      }
    }
  }

  /** What passes a filter of a sorted sequence is still sorted. */
  lemma {:induction false} FilterSorted<T>(s: seq<T>, p: T -> bool, key: T -> int)
    requires SortedBy(s, key)
    ensures SortedBy(Filter(s, p), key)
  {
    if |s| > 0 {
      var init, x := s[..|s| - 1], s[|s| - 1];
      assert SortedBy(init, key);
      FilterSorted(init, p, key);
      var f := Filter(init, p);
      if p(x) {
        forall i | 0 <= i < |f| ensures key(f[i]) <= key(x) {
          FilterMembers(init, p, f[i]);
        }
      }
    }
  }

  /** A filter keeps stability: equal ties before give equal ties after. */
  lemma FilterSameTies<T>(s: seq<T>, t: seq<T>, p: T -> bool, key: T -> int)
    requires SameTies(s, t, key)
    ensures SameTies(Filter(s, p), Filter(t, p), key)
  {
    forall k ensures WithKey(Filter(s, p), key, k) == WithKey(Filter(t, p), key, k) {
      FilterWithKey(s, p, key, k);
      FilterWithKey(t, p, key, k);
    }
  }

  lemma {:induction false} FilterAppend<T>(s: seq<T>, t: seq<T>, p: T -> bool)
    ensures Filter(s + t, p) == Filter(s, p) + Filter(t, p)
  {
    if |t| > 0 {
      var init := t[..|t| - 1];
      FilterAppend(s, init, p);
      assert (s + t)[..|s + t| - 1] == s + init;
    } else {
      assert s + t == s;
    }
  }

  /** Filtering the sorted sequence gives the sorted filter: a stable sort
      treats the elements passing `p` as if the others were not there. */
  lemma FilterStableSortCommute<T>(s: seq<T>, p: T -> bool, key: T -> int)
    ensures Filter(StableSort(s, key), p) == StableSort(Filter(s, p), key)
  {
    var f := Filter(s, p);
    StableSortSorted(s, key);
    StableSortTies(s, key);
    StableSortSorted(f, key);
    StableSortTies(f, key);
    FilterSorted(StableSort(s, key), p, key);
    FilterSameTies(s, StableSort(s, key), p, key);
    SortedTiesDetermine(Filter(StableSort(s, key), p), StableSort(f, key), key);
  }

  /** A stable sort leaves alone every part of its input that was already in
      key order: the elements passing `p` come out in the order they went in. */
  lemma FilterStableSort<T>(s: seq<T>, p: T -> bool, key: T -> int)
    requires SortedBy(Filter(s, p), key)
    ensures Filter(StableSort(s, key), p) == Filter(s, p)
  {
    var f := Filter(s, p);
    FilterStableSortCommute(s, p, key);
    StableSortUnique(f, f, key);
  }

  /** One step of the in-place sort: `a[i]` is swapped leftwards past the
      elements with a strictly larger key. */
  method InsertInPlace<T>(a: array<T>, i: nat, key: T -> int)
    requires i < a.Length
    modifies a
    ensures a[..i + 1] == InsertLast(old(a[..i]), old(a[i]), key)
    ensures a[i + 1..] == old(a[i + 1..])
  {
    ghost var done, x := a[..i], a[i];
    var j := i;
    while j > 0 && key(a[j - 1]) > key(a[j])
      invariant 0 <= j <= i
      invariant a[j] == x
      invariant InsertLast(a[..j], x, key) + a[j + 1..i + 1] == InsertLast(done, x, key)
      invariant a[i + 1..] == old(a[i + 1..])
    {
      ghost var front, y, rest := a[..j - 1], a[j - 1], a[j + 1..i + 1];
      assert a[..j] == front + [y];
      a[j - 1], a[j] := a[j], a[j - 1];
      j := j - 1;
      assert a[..j] == front;
      assert a[j + 1..i + 1] == [y] + rest;
    }
    assert a[..i + 1] == a[..j] + [x] + a[j + 1..i + 1];
  }

  /** The in-place sort: an insertion sort, proved to produce what the
      reference sort produces. */
  method SortInPlace<T>(a: array<T>, key: T -> int)
    modifies a
    ensures a[..] == StableSort(old(a[..]), key)
  {
    ghost var input := a[..];
    var i := 0;
    while i < a.Length
      invariant 0 <= i <= a.Length
      invariant a[..i] == StableSort(input[..i], key)
      invariant a[i..] == input[i..]
    {
      InsertInPlace(a, i, key);
      assert input[..i + 1][..i] == input[..i];
      i := i + 1;
    }
    assert input[..a.Length] == input;
  }
}

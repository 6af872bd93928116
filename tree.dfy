/**
 * The pure helpers of src/tree.py: `rem_redundant`, `unique_pairs` and
 * `_sort_dict_by_key`, and the value sequences that `tree_coevol` hands to
 * `pearsonr` for two trees.
 */
module TreePairs {
  import opened PyColl
  import opened PyStr

  /** A Python 2-tuple of labels. */
  type Pair = (string, string)

  // ---------------------------------------------------------------------------
  // rem_redundant and unique_pairs

  /** What `rem_redundant` keeps for `(a, b)`: `(a, b)` when `a <= b`, otherwise `(b, a)`. */
  function Canon(p: Pair): (q: Pair)
    ensures Le(q.0, q.1)
    ensures q == p || q == (p.1, p.0)
  {
    LeTotal(p.0, p.1);
    if Le(p.0, p.1) then p else (p.1, p.0)
  }

  /** A pair and its swap are kept as the same element. */
  lemma CanonSymmetric(a: string, b: string)
    ensures Canon((a, b)) == Canon((b, a))
  {
    if Le(a, b) && Le(b, a) {
      LeAntisymmetric(a, b);
    }
  }

  /** `rem_redundant(pairs)`: the set of the canonical forms of the pairs. */
  function RemRedundant(pairs: seq<Pair>): (r: set<Pair>)
    ensures forall q :: q in r ==> Le(q.0, q.1)
  {
    set p | p in pairs :: Canon(p)
  }

  /** `(a, b)` is kept exactly when `a <= b` and the pair occurs in either order. */
  lemma RemRedundantMembers(pairs: seq<Pair>, a: string, b: string)
    ensures (a, b) in RemRedundant(pairs) <==> Le(a, b) && ((a, b) in pairs || (b, a) in pairs)
  {
    if (a, b) in RemRedundant(pairs) {
      var p :| p in pairs && Canon(p) == (a, b);
    }
    if Le(a, b) && (b, a) in pairs {
      CanonSymmetric(a, b);
      assert Canon((b, a)) == (a, b);
    }
    if Le(a, b) && (a, b) in pairs {
      assert Canon((a, b)) == (a, b);
    }
  }

  /** The pairs of `a` with every label other than `a`, in list order (the inner loop of tree.py:22). */
  function PairsWith(a: string, taxa: seq<string>): seq<Pair>
  {
    if |taxa| == 0 then []
    else
      var j := taxa[|taxa| - 1];
      PairsWith(a, taxa[..|taxa| - 1]) + (if a != j then [(a, j)] else [])
  }

  /** The pairs of two different labels, the first from `outer`, the second from `taxa`, in loop order (tree.py:22). */
  function PairsFrom(outer: seq<string>, taxa: seq<string>): seq<Pair>
  {
    if |outer| == 0 then []
    else PairsFrom(outer[..|outer| - 1], taxa) + PairsWith(outer[|outer| - 1], taxa)
  }

  lemma {:induction false} PairsWithMembers(a: string, taxa: seq<string>, p: Pair)
    ensures p in PairsWith(a, taxa) <==> p.0 == a && p.1 in taxa && p.1 != a
  {
    if |taxa| > 0 {
      var init := taxa[..|taxa| - 1];
      PairsWithMembers(a, init, p);
      assert taxa == init + [taxa[|taxa| - 1]];
    }
  }

  lemma {:induction false} PairsFromMembers(outer: seq<string>, taxa: seq<string>, p: Pair)
    ensures p in PairsFrom(outer, taxa) <==> p.0 in outer && p.1 in taxa && p.0 != p.1
  {
    if |outer| > 0 {
      var init, last := outer[..|outer| - 1], outer[|outer| - 1];
      PairsFromMembers(init, taxa, p);
      PairsWithMembers(last, taxa, p);
      assert outer == init + [last];
      assert p in PairsFrom(outer, taxa) <==> p in PairsFrom(init, taxa) || p in PairsWith(last, taxa);
      assert p.0 in outer <==> p.0 in init || p.0 == last;
    }
  }

  /** `unique_pairs(taxa)`: the canonical forms of all ordered pairs of different labels. */
  function UniquePairs(taxa: seq<string>): (r: set<Pair>)
    ensures forall q :: q in r ==> Le(q.0, q.1)
  {
    RemRedundant(PairsFrom(taxa, taxa))
  }

  /** Every unordered pair of different labels, smaller label first, and nothing else. */
  lemma UniquePairsMembers(taxa: seq<string>, a: string, b: string)
    ensures (a, b) in UniquePairs(taxa) <==> a in taxa && b in taxa && Lt(a, b)
  {
    var all := PairsFrom(taxa, taxa);
    RemRedundantMembers(all, a, b);
    PairsFromMembers(taxa, taxa, (a, b));
    PairsFromMembers(taxa, taxa, (b, a));
  }

  /** Repeating or reordering the labels does not change the pairs. */
  lemma UniquePairsOfElems(t1: seq<string>, t2: seq<string>)
    requires Elems(t1) == Elems(t2)
    ensures UniquePairs(t1) == UniquePairs(t2)
  {
    forall p: Pair
      ensures p in UniquePairs(t1) <==> p in UniquePairs(t2)
    {
      UniquePairsMembers(t1, p.0, p.1);
      UniquePairsMembers(t2, p.0, p.1);
      assert p.0 in t1 <==> p.0 in Elems(t1);
      assert p.1 in t1 <==> p.1 in Elems(t1);
      assert p.0 in t2 <==> p.0 in Elems(t2);
      assert p.1 in t2 <==> p.1 in Elems(t2);
    }
  }

  /** The pairs of different labels of a set, smaller first. */
  ghost function PairsOf(labels: set<string>): set<Pair>
  {
    set a, b | a in labels && b in labels && Lt(a, b) :: (a, b)
  }

  /** The pairs of `x` with each of `others`, smaller label first. */
  ghost function Row(x: string, others: set<string>): set<Pair>
  {
    set y | y in others :: Canon((x, y))
  }

  /** `x` pairs with each other label in a different pair. */
  lemma {:induction false} RowSize(x: string, others: set<string>)
    requires x !in others
    ensures |Row(x, others)| == |others|
  {
    if others != {} {
      var y :| y in others;
      var rest := others - {y};
      RowSize(x, rest);
      assert Row(x, others) == Row(x, rest) + {Canon((x, y))};
      assert Canon((x, y)) !in Row(x, rest);
      RemoveOneSize(others, y);
    }
  }

  /** A set of n labels has n(n-1)/2 such pairs. */
  lemma {:induction false} PairsOfSize(labels: set<string>)
    ensures |PairsOf(labels)| * 2 == |labels| * (|labels| - 1)
  {
    if labels != {} {
      var x :| x in labels;
      var rest := labels - {x};
      PairsOfSize(rest);
      RowSize(x, rest);
      PairsOfSplit(labels, x);
      assert PairsOf(rest) * Row(x, rest) == {} by {
        forall p | p in Row(x, rest)
          ensures p !in PairsOf(rest)
        {
          var y :| y in rest && Canon((x, y)) == p;
        }
      }
      RemoveOneSize(labels, x);
      DisjointUnionSize(PairsOf(rest), Row(x, rest));
      var n := |rest|;
      assert n * (n - 1) + 2 * n == (n + 1) * n;
    }
  }

  /** The pairs of a set with `x` in it: the pairs without `x` and one pair per other label. */
  lemma PairsOfSplit(labels: set<string>, x: string)
    requires x in labels
    ensures PairsOf(labels) == PairsOf(labels - {x}) + Row(x, labels - {x})
  {
    var rest := labels - {x};
    forall p | p in PairsOf(labels)
      ensures p in PairsOf(rest) + Row(x, rest)
    {
      if p.0 == x {
        assert Canon((x, p.1)) == p;
      } else if p.1 == x {
        if Le(x, p.0) {
          LeAntisymmetric(x, p.0);
        }
        assert Canon((x, p.0)) == p;
      }
    }
    forall p | p in Row(x, rest)
      ensures p in PairsOf(labels)
    {
      var y :| y in rest && Canon((x, y)) == p;
    }
  }

  /** `unique_pairs` of n different labels has n(n-1)/2 elements. */
  lemma UniquePairsCount(taxa: seq<string>)
    requires NoDup(taxa)
    ensures |UniquePairs(taxa)| * 2 == |taxa| * (|taxa| - 1)
  {
    forall p: Pair
      ensures p in UniquePairs(taxa) <==> p in PairsOf(Elems(taxa))
    {
      UniquePairsMembers(taxa, p.0, p.1);
      assert p.0 in taxa <==> p.0 in Elems(taxa);
      assert p.1 in taxa <==> p.1 in Elems(taxa);
    }
    assert UniquePairs(taxa) == PairsOf(Elems(taxa));
    PairsOfSize(Elems(taxa));
    DistinctElems(taxa);
  }

  // ---------------------------------------------------------------------------
  // _sort_dict_by_key

  /** Each label is smaller than every later one. */
  predicate StrictlyAscending(s: seq<string>)
  {
    forall i, j :: 0 <= i < j < |s| ==> Lt(s[i], s[j])
  }

  /** Inserting `k` before the first label it does not exceed. */
  function InsertKey(k: string, s: seq<string>): (r: seq<string>)
    ensures Elems(r) == Elems(s) + {k} && |r| == |s| + 1
  {
    if |s| == 0 then [k]
    else if Le(k, s[0]) then [k] + s
    else
      var t := InsertKey(k, s[1..]);
      assert Elems(s) == {s[0]} + Elems(s[1..]);
      assert Elems([s[0]] + t) == {s[0]} + Elems(t);
      [s[0]] + t
  }

  lemma {:induction false} InsertKeySorted(k: string, s: seq<string>)
    requires StrictlyAscending(s) && k !in s
    ensures StrictlyAscending(InsertKey(k, s))
  {
    if |s| > 0 {
      var r := InsertKey(k, s);
      if Le(k, s[0]) {
        assert Lt(k, s[0]);
        forall j | 0 < j < |r|
          ensures Lt(r[0], r[j])
        {
          if j > 1 {
            LtTransitive(k, s[0], s[j - 1]);
          }
        }
      } else {
        LeTotal(k, s[0]);
        InsertKeySorted(k, s[1..]);
        var t := InsertKey(k, s[1..]);
        forall j | 0 <= j < |t|
          ensures Lt(s[0], t[j])
        {
          assert t[j] in Elems(t);
          if t[j] != k {
            var i :| 0 <= i < |s[1..]| && s[1..][i] == t[j];
            assert s[i + 1] == t[j];
          }
        }
      }
    }
  }

  /** Python `sorted` on the labels of a dict, by insertion. */
  function SortKeys(ks: seq<string>): (r: seq<string>)
    ensures Elems(r) == Elems(ks) && |r| == |ks|
  {
    if |ks| == 0 then []
    else
      assert Elems(ks) == {ks[0]} + Elems(ks[1..]);
      InsertKey(ks[0], SortKeys(ks[1..]))
  }

  lemma {:induction false} SortKeysSorted(ks: seq<string>)
    requires NoDup(ks)
    ensures StrictlyAscending(SortKeys(ks))
  {
    if |ks| > 0 {
      SortKeysSorted(ks[1..]);
      assert ks[0] !in Elems(ks[1..]);
      InsertKeySorted(ks[0], SortKeys(ks[1..]));
    }
  }

  /** Two strictly ascending sequences with the same labels are the same sequence. */
  lemma {:induction false} AscendingUnique(s: seq<string>, t: seq<string>)
    requires StrictlyAscending(s) && StrictlyAscending(t)
    requires Elems(s) == Elems(t)
    ensures s == t
  {
    if |s| == 0 {
      ElemsEmpty(t);
    } else {
      assert |t| > 0 by { assert s[0] in Elems(s); }
      assert s[0] in Elems(t) && t[0] in Elems(s);
      var i :| 0 <= i < |s| && s[i] == t[0];
      var j :| 0 <= j < |t| && t[j] == s[0];
      if i > 0 && j > 0 {
        LtTransitive(s[0], s[i], s[0]);
      }
      assert s[0] == t[0];
      assert Elems(s[1..]) == Elems(t[1..]) by {
        assert Elems(s) == {s[0]} + Elems(s[1..]) && Elems(t) == {t[0]} + Elems(t[1..]);
        assert s[0] !in Elems(s[1..]) && t[0] !in Elems(t[1..]);
      }
      AscendingUnique(s[1..], t[1..]);
      assert s == [s[0]] + s[1..] && t == [t[0]] + t[1..];
    }
  }

  /** `_sort_dict_by_key(d)`: `d.items()` sorted by key. */
  function SortDictByKey<V>(d: Dict<string, V>): (items: seq<(string, V)>)
    requires d.Valid()
  {
    ItemsOf(d, SortKeys(d.order))
  }

  /** The items of the keys `ks` that `d` has, in the order of `ks`. */
  function ItemsOf<V>(d: Dict<string, V>, ks: seq<string>): seq<(string, V)>
  {
    if |ks| == 0 then []
    else if ks[0] in d.entries then [(ks[0], d.entries[ks[0]])] + ItemsOf(d, ks[1..])
    else ItemsOf(d, ks[1..])
  }

  /** When `d` has every key of `ks`, there is one item per key, with its value. */
  lemma {:induction false} ItemsOfKeys<V>(d: Dict<string, V>, ks: seq<string>)
    requires Elems(ks) <= d.entries.Keys
    ensures var items := ItemsOf(d, ks);
      |items| == |ks| && forall i :: 0 <= i < |ks| ==> items[i] == (ks[i], d.entries[ks[i]])
  {
    if |ks| > 0 {
      assert ks[0] in Elems(ks);
      assert Elems(ks[1..]) <= Elems(ks);
      ItemsOfKeys(d, ks[1..]);
    }
  }

  /** The sorted items are the dict's items, each key once, in ascending key order. */
  lemma SortDictByKeyItems<V>(d: Dict<string, V>)
    requires d.Valid()
    ensures var items := SortDictByKey(d);
      && |items| == |d.entries|
      && (forall i :: 0 <= i < |items| ==> items[i].0 in d.entries && items[i].1 == d.entries[items[i].0])
      && Elems(KeysOf(items)) == d.entries.Keys
      && StrictlyAscending(KeysOf(items))
  {
    var items := SortDictByKey(d);
    SortKeysSorted(d.order);
    ItemsOfKeys(d, SortKeys(d.order));
    assert KeysOf(items) == SortKeys(d.order);
    DistinctElems(d.order);
    assert forall i :: 0 <= i < |items| ==> items[i].0 in Elems(SortKeys(d.order));
  }

  /** The key order of the sorted items depends only on the set of keys. */
  lemma SortDictByKeyKeys<V, W>(d0: Dict<string, V>, d1: Dict<string, W>)
    requires d0.Valid() && d1.Valid()
    requires d0.entries.Keys == d1.entries.Keys
    ensures KeysOf(SortDictByKey(d0)) == KeysOf(SortDictByKey(d1))
  {
    SortDictByKeyItems(d0);
    SortDictByKeyItems(d1);
    AscendingUnique(KeysOf(SortDictByKey(d0)), KeysOf(SortDictByKey(d1)));
  }

  // ---------------------------------------------------------------------------
  // The value sequences of one tree pair

  /** The items whose key is in `common`, in order (tree.py:70-71). */
  function FilterItems(items: seq<(string, real)>, common: set<string>): (r: seq<(string, real)>)
    ensures |r| <= |items|
  {
    if |items| == 0 then []
    else
      var last := items[|items| - 1];
      FilterItems(items[..|items| - 1], common) + (if last.0 in common then [last] else [])
  }

  /** The values of the items whose key is in `common`, in order: what tree.py:70-71 hands to `pearsonr`. */
  function FilterValues(items: seq<(string, real)>, common: set<string>): (vs: seq<real>)
    ensures |vs| <= |items|
  {
    if |items| == 0 then []
    else
      var last := items[|items| - 1];
      FilterValues(items[..|items| - 1], common) + (if last.0 in common then [last.1] else [])
  }

  /** The filtered values are the values of the filtered items, one for one. */
  lemma {:induction false} FilterValuesOfItems(items: seq<(string, real)>, common: set<string>)
    ensures var f := FilterItems(items, common);
      var vs := FilterValues(items, common);
      |vs| == |f| && forall i :: 0 <= i < |f| ==> vs[i] == f[i].1
  {
    if |items| > 0 {
      FilterValuesOfItems(items[..|items| - 1], common);
    }
  }

  /** Filtering keeps exactly the items whose key is in `common`. */
  lemma {:induction false} FilterItemsMembers(items: seq<(string, real)>, common: set<string>)
    ensures forall x :: x in FilterItems(items, common) <==> x in items && x.0 in common
  {
    if |items| > 0 {
      var init := items[..|items| - 1];
      FilterItemsMembers(init, common);
      assert items == init + [items[|items| - 1]];
    }
  }

  /** Filtering keeps the order: ascending keys stay ascending. */
  lemma {:induction false} FilterItemsAscending(items: seq<(string, real)>, common: set<string>)
    requires StrictlyAscending(KeysOf(items))
    ensures StrictlyAscending(KeysOf(FilterItems(items, common)))
  {
    if |items| > 0 {
      var init := items[..|items| - 1];
      assert StrictlyAscending(KeysOf(init)) by {
        assert forall i :: 0 <= i < |init| ==> KeysOf(init)[i] == KeysOf(items)[i];
      }
      FilterItemsAscending(init, common);
      FilterItemsMembers(init, common);
      var f := FilterItems(items, common);
      var fi := FilterItems(init, common);
      forall i, j | 0 <= i < j < |f|
        ensures Lt(KeysOf(f)[i], KeysOf(f)[j])
      {
        if j == |fi| {
          assert f[i] in fi;
          var k :| 0 <= k < |init| && init[k] == f[i];
          assert KeysOf(items)[k] == f[i].0 && KeysOf(items)[|items| - 1] == f[j].0;
        } else {
          assert KeysOf(fi)[i] == f[i].0 && KeysOf(fi)[j] == f[j].0;
        }
      }
    }
  }

  /** The kept keys are the keys in `common`. */
  lemma FilterKeysElems(items: seq<(string, real)>, common: set<string>)
    ensures Elems(KeysOf(FilterItems(items, common))) == Elems(KeysOf(items)) * common
  {
    var f := FilterItems(items, common);
    FilterItemsMembers(items, common);
    forall k | k in Elems(KeysOf(items)) * common
      ensures k in Elems(KeysOf(f))
    {
      var i :| 0 <= i < |items| && KeysOf(items)[i] == k;
      assert items[i] in f;
      var j :| 0 <= j < |f| && f[j] == items[i];
      assert KeysOf(f)[j] == k;
    }
    forall k | k in Elems(KeysOf(f))
      ensures k in Elems(KeysOf(items)) * common
    {
      var j :| 0 <= j < |f| && KeysOf(f)[j] == k;
      assert f[j] in items;
      var i :| 0 <= i < |items| && items[i] == f[j];
      assert KeysOf(items)[i] == k;
    }
  }

  /** The keys kept from sorted items: ascending, and exactly the dict keys in `common`. */
  lemma FilterSortedKeys(d: Dict<string, real>, common: set<string>)
    requires d.Valid()
    ensures var f := FilterItems(SortDictByKey(d), common);
      StrictlyAscending(KeysOf(f)) && Elems(KeysOf(f)) == d.entries.Keys * common
  {
    var items := SortDictByKey(d);
    SortDictByKeyItems(d);
    FilterItemsAscending(items, common);
    FilterKeysElems(items, common);
  }

  /** Every kept item is the dict's own item. */
  lemma FilterSortedValues(d: Dict<string, real>, common: set<string>)
    requires d.Valid()
    ensures var f := FilterItems(SortDictByKey(d), common);
      forall i :: 0 <= i < |f| ==> f[i].0 in d.entries && f[i].1 == d.entries[f[i].0]
  {
    var items := SortDictByKey(d);
    var f := FilterItems(items, common);
    SortDictByKeyItems(d);
    FilterItemsMembers(items, common);
    forall i | 0 <= i < |f|
      ensures f[i].0 in d.entries && f[i].1 == d.entries[f[i].0]
    {
      assert f[i] in items;
    }
  }

  /** One kept item per dict key in `common`. */
  lemma FilterSortedLength(d: Dict<string, real>, common: set<string>)
    requires d.Valid()
    ensures |FilterItems(SortDictByKey(d), common)| == |d.entries.Keys * common|
  {
    var f := FilterItems(SortDictByKey(d), common);
    FilterSortedKeys(d, common);
    DistinctAscending(KeysOf(f));
    DistinctElems(KeysOf(f));
  }

  /**
   * The `common_taxa` of `tree_coevol` for two per-tree maps: when their sizes
   * differ, the keys of the first that are keys of the second; when the sizes
   * are equal, all keys of the first, with no membership test.
   */
  function CommonKeys(d0: Dict<string, real>, d1: Dict<string, real>): set<string>
  {
    if |d0.entries| != |d1.entries| then set k | k in d0.entries && k in d1.entries
    else d0.entries.Keys
  }

  /**
   * `common_taxa` lies within the first map's keys and holds every key both
   * maps have; when the sizes differ it lies within both maps' keys, and when
   * they are equal it is all of the first map's keys.
   */
  lemma CommonKeysBounds(d0: Dict<string, real>, d1: Dict<string, real>)
    ensures var common := CommonKeys(d0, d1);
      && common <= d0.entries.Keys
      && d0.entries.Keys * d1.entries.Keys <= common
      && (|d0.entries| != |d1.entries| ==> common <= d1.entries.Keys)
      && (|d0.entries| == |d1.entries| ==> d0.entries.Keys <= common)
  {
  }

  /**
   * Filtering both maps' sorted items by keys they both have pairs them up:
   * equal lengths, and the i-th values of both come from the same key.
   */
  lemma SharedKeysAlign(d0: Dict<string, real>, d1: Dict<string, real>, common: set<string>)
    requires d0.Valid() && d1.Valid()
    requires common <= d0.entries.Keys && common <= d1.entries.Keys
    ensures var a := FilterItems(SortDictByKey(d0), common);
      var b := FilterItems(SortDictByKey(d1), common);
      && |a| == |b|
      && forall i :: 0 <= i < |a| ==>
        a[i].0 == b[i].0 && a[i].0 in d0.entries && a[i].0 in d1.entries && a[i].1 == d0.entries[a[i].0] && b[i].1 == d1.entries[a[i].0]
  {
    var a := FilterItems(SortDictByKey(d0), common);
    var b := FilterItems(SortDictByKey(d1), common);
    FilterSortedKeys(d0, common);
    FilterSortedKeys(d1, common);
    FilterSortedValues(d0, common);
    FilterSortedValues(d1, common);
    assert d0.entries.Keys * common == common == d1.entries.Keys * common;
    AscendingUnique(KeysOf(a), KeysOf(b));
    assert forall i :: 0 <= i < |a| ==> a[i].0 == KeysOf(a)[i] == KeysOf(b)[i] == b[i].0;
  }

  /**
   * The two value sequences of `tree_coevol` line up key by key exactly when
   * the map sizes differ or the first map's keys are all keys of the second.
   */
  lemma CommonKeysAlignIff(d0: Dict<string, real>, d1: Dict<string, real>)
    requires d0.Valid() && d1.Valid()
    ensures var common := CommonKeys(d0, d1);
      KeysOf(FilterItems(SortDictByKey(d0), common)) == KeysOf(FilterItems(SortDictByKey(d1), common))
      <==> |d0.entries| != |d1.entries| || d0.entries.Keys <= d1.entries.Keys
  {
    var common := CommonKeys(d0, d1);
    CommonKeysBounds(d0, d1);
    var a := FilterItems(SortDictByKey(d0), common);
    var b := FilterItems(SortDictByKey(d1), common);
    if |d0.entries| != |d1.entries| || d0.entries.Keys <= d1.entries.Keys {
      SharedKeysAlign(d0, d1, common);
    } else {
      var k :| k in d0.entries && k !in d1.entries;
      FilterSortedKeys(d0, common);
      FilterSortedKeys(d1, common);
      assert k in Elems(KeysOf(a)) && k !in Elems(KeysOf(b));
    }
  }

  /**
   * The equal-size shortcut misaligns: two maps of the same size whose keys
   * differ give value sequences of different lengths.
   */
  lemma EqualSizeShortcutMisaligns(d0: Dict<string, real>, d1: Dict<string, real>)
    requires d0.Valid() && d1.Valid()
    requires |d0.entries| == |d1.entries| && d0.entries.Keys != d1.entries.Keys
    ensures var common := CommonKeys(d0, d1);
      |FilterValues(SortDictByKey(d0), common)| > |FilterValues(SortDictByKey(d1), common)|
  {
    var common := CommonKeys(d0, d1);
    CommonKeysBounds(d0, d1);
    FilterSortedLength(d0, common);
    FilterSortedLength(d1, common);
    FilterValuesOfItems(SortDictByKey(d0), common);
    FilterValuesOfItems(SortDictByKey(d1), common);
    var k0, k1 := d0.entries.Keys, d1.entries.Keys;
    if k1 <= k0 {
      StrictSubsetSmaller(k1, k0);
      assert false;
    }
    var shared := k1 * k0;
    assert k0 * common == k0 && k1 * common == shared;
    StrictSubsetSmaller(shared, k1);
  }

  /** A strictly ascending sequence has no repeated label. */
  lemma DistinctAscending(s: seq<string>)
    requires StrictlyAscending(s)
    ensures NoDup(s)
  {
  }
}

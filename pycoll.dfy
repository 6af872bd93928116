/** Python list and dict semantics used by the modelled code. */
module PyColl {

  /** No element occurs twice (the elements of a Python set, or the keys of a dict). */
  ghost predicate NoDup<T>(s: seq<T>)
  {
    forall i, j :: 0 <= i < j < |s| ==> s[i] != s[j]
  }

  /** The set of elements of a sequence (Python `set(s)`). */
  function Elems<T>(s: seq<T>): set<T>
  {
    set x | x in s
  }

  /** Only the empty sequence has no elements. */
  lemma ElemsEmpty<T>(s: seq<T>)
    ensures Elems(s) == {} ==> |s| == 0
  {
    if |s| > 0 {
      assert s[0] in Elems(s);
    }
  }

  /** The size of a union of disjoint sets. */
  lemma DisjointUnionSize<T>(a: set<T>, b: set<T>)
    requires a * b == {}
    ensures |a + b| == |a| + |b|
  {
  }

  /** Removing a member makes a set one smaller. */
  lemma RemoveOneSize<T>(s: set<T>, x: T)
    requires x in s
    ensures |s - {x}| == |s| - 1
  {
  }

  /** A proper subset is smaller. */
  lemma StrictSubsetSmaller<T>(a: set<T>, b: set<T>)
    requires a <= b && a != b
    ensures |a| < |b|
  {
    assert b == a + (b - a);
    var x :| x in b && x !in a;
    assert x in b - a;
  }

  /** A duplicate-free sequence has as many distinct elements as positions. */
  lemma {:induction false} DistinctElems<T>(s: seq<T>)
    requires NoDup(s)
    ensures |Elems(s)| == |s|
  {
    if |s| > 0 {
      DistinctElems(s[1..]);
      assert Elems(s) == {s[0]} + Elems(s[1..]);
      assert s[0] !in Elems(s[1..]);
    }
  }

  /** Python `s.count(x)`. */
  function Count<T(==)>(s: seq<T>, x: T): (n: nat)
    ensures n <= |s|
  {
    if |s| == 0 then 0 else Count(s[..|s| - 1], x) + (if s[|s| - 1] == x then 1 else 0)
  }

  /** `x` occurs in `s` exactly when it is counted there. */
  lemma {:induction false} CountPositive<T>(s: seq<T>, x: T)
    ensures Count(s, x) > 0 <==> x in s
  {
    if |s| > 0 {
      CountPositive(s[..|s| - 1], x);
      assert s == s[..|s| - 1] + [s[|s| - 1]];
    }
  }

  lemma {:induction false} CountAppend<T>(a: seq<T>, b: seq<T>, x: T)
    ensures Count(a + b, x) == Count(a, x) + Count(b, x)
  {
    if |b| == 0 {
      assert a + b == a;
    } else {
      assert (a + b)[..|a + b| - 1] == a + b[..|b| - 1];
      CountAppend(a, b[..|b| - 1], x);
    }
  }

  /** Counting from the front. */
  lemma CountCons<T>(s: seq<T>, x: T)
    requires |s| > 0
    ensures Count(s, x) == (if s[0] == x then 1 else 0) + Count(s[1..], x)
  {
    assert s == [s[0]] + s[1..];
    CountAppend([s[0]], s[1..], x);
  }

  lemma CountAppend4<T>(a: seq<T>, b: seq<T>, c: seq<T>, d: seq<T>, x: T)
    ensures Count(a + b + c + d, x) == Count(a, x) + Count(b, x) + Count(c, x) + Count(d, x)
  {
    CountAppend(a, b, x);
    CountAppend(a + b, c, x);
    CountAppend(a + b + c, d, x);
  }

  /** Peeling the first element off the left operand of a concatenation. */
  lemma AppendCons<T>(a: seq<T>, t: seq<T>)
    requires |a| > 0
    ensures a + t == [a[0]] + (a[1..] + t)
  {
  }

  /** The inner sequences concatenated in order. */
  function Flatten<T>(ss: seq<seq<T>>): seq<T>
  {
    if |ss| == 0 then [] else Flatten(ss[..|ss| - 1]) + ss[|ss| - 1]
  }

  /** The sum of the inner lengths. */
  function TotalLength<T>(ss: seq<seq<T>>): nat
  {
    if |ss| == 0 then 0 else TotalLength(ss[..|ss| - 1]) + |ss[|ss| - 1]|
  }

  lemma {:induction false} FlattenLength<T>(ss: seq<seq<T>>)
    ensures |Flatten(ss)| == TotalLength(ss)
  {
    if |ss| > 0 {
      FlattenLength(ss[..|ss| - 1]);
    }
  }

  /** An element is in the flattened sequence exactly when it is in one of the inner ones. */
  lemma {:induction false} FlattenMember<T>(ss: seq<seq<T>>, x: T)
    ensures x in Flatten(ss) <==> exists i :: 0 <= i < |ss| && x in ss[i]
  {
    if |ss| > 0 {
      var init := ss[..|ss| - 1];
      FlattenMember(init, x);
      if x in Flatten(ss) && x !in ss[|ss| - 1] {
        var i :| 0 <= i < |init| && x in init[i];
        assert ss[i] == init[i];
      }
      if exists i :: 0 <= i < |ss| && x in ss[i] {
        var i :| 0 <= i < |ss| && x in ss[i];
        if i < |ss| - 1 {
          assert x in init[i];
        }
      }
    }
  }

  /** Position of the first occurrence of `x` in `s`, or `|s|` when there is none. */
  function IndexOf<T(==)>(s: seq<T>, x: T): (r: nat)
    ensures r <= |s|
    ensures r < |s| <==> x in s
    ensures r < |s| ==> s[r] == x
    ensures forall i :: 0 <= i < r ==> s[i] != x
  {
    if |s| == 0 then 0
    else if s[0] == x then 0
    else 1 + IndexOf(s[1..], x)
  }

  /**
   * A Python dict: its keys in insertion order (what `items()` iterates) and
   * the mapping itself.
   */
  datatype Dict<K, V> = Dict(order: seq<K>, entries: map<K, V>)
  {
    ghost predicate Valid()
    {
      NoDup(order) && Elems(order) == entries.Keys
    }

    /** Python `d[k] = v`: a new key goes to the end, an existing key keeps its place. */
    function Set(k: K, v: V): (d: Dict<K, V>)
      requires Valid()
      ensures d.Valid()
      ensures d.entries == entries[k := v]
      ensures d.order == if k in entries then order else order + [k]
    {
      if k in entries then Dict(order, entries[k := v])
      else Dict(order + [k], entries[k := v])
    }
  }

  function EmptyDict<K, V>(): (d: Dict<K, V>)
    ensures d.Valid() && d.order == []
  {
    Dict([], map[])
  }

  /** A slice of a concatenation that lies within its left side is a slice of that side. */
  lemma SliceOfAppendLeft<T>(a: seq<T>, b: seq<T>, i: nat, j: nat)
    requires i <= j <= |a|
    ensures (a + b)[i..j] == a[i..j]
  {
  }

  /** The right side of a concatenation is its slice after the left side. */
  lemma SliceOfAppendRight<T>(a: seq<T>, b: seq<T>)
    ensures (a + b)[|a|..|a| + |b|] == b
  {
  }

  /** The keys of a list of key-value items, in order. */
  function KeysOf<K, V>(items: seq<(K, V)>): (ks: seq<K>)
    ensures |ks| == |items| && forall i :: 0 <= i < |items| ==> ks[i] == items[i].0
  {
    seq(|items|, i requires 0 <= i < |items| => items[i].0)
  }

  /** The dict built by `d[k] = v` for each item of `kvs` in turn, from an empty dict. */
  function Assign<K, V>(kvs: seq<(K, V)>): (d: Dict<K, V>)
    ensures d.Valid()
  {
    if |kvs| == 0 then EmptyDict()
    else Assign(kvs[..|kvs| - 1]).Set(kvs[|kvs| - 1].0, kvs[|kvs| - 1].1)
  }

  /** The keys of the built dict are the keys of the items, and no others. */
  lemma {:induction false} AssignKeys<K, V>(kvs: seq<(K, V)>)
    ensures Assign(kvs).entries.Keys == Elems(KeysOf(kvs))
    ensures |Assign(kvs).order| <= |kvs|
  {
    if |kvs| > 0 {
      var init := kvs[..|kvs| - 1];
      AssignKeys(init);
      KeysOfSnoc(kvs);
    }
  }

  /** The keys of all items are the keys of all but the last, and the last one's. */
  lemma KeysOfSnoc<K, V>(kvs: seq<(K, V)>)
    requires |kvs| > 0
    ensures KeysOf(kvs) == KeysOf(kvs[..|kvs| - 1]) + [kvs[|kvs| - 1].0]
    ensures Elems(KeysOf(kvs)) == Elems(KeysOf(kvs[..|kvs| - 1])) + {kvs[|kvs| - 1].0}
  {
    var init := kvs[..|kvs| - 1];
    assert KeysOf(kvs) == KeysOf(init) + [kvs[|kvs| - 1].0];
    ElemsSnoc(KeysOf(init), kvs[|kvs| - 1].0);
  }

  /** Appending one element adds it to the elements. */
  lemma ElemsSnoc<T>(s: seq<T>, x: T)
    ensures Elems(s + [x]) == Elems(s) + {x}
  {
    forall y | y in Elems(s + [x])
      ensures y in Elems(s) + {x}
    {
      var i :| 0 <= i < |s + [x]| && (s + [x])[i] == y;
      if i < |s| {
        assert s[i] == y;
      }
    }
  }

  /**
   * With distinct keys, the built dict lists the keys in the items' order and
   * holds each item's value.
   */
  lemma {:induction false} AssignDistinct<K, V>(kvs: seq<(K, V)>)
    requires NoDup(KeysOf(kvs))
    ensures Assign(kvs).order == KeysOf(kvs)
    ensures forall i :: 0 <= i < |kvs| ==> kvs[i].0 in Assign(kvs).entries && Assign(kvs).entries[kvs[i].0] == kvs[i].1
  {
    if |kvs| > 0 {
      var init, last := kvs[..|kvs| - 1], kvs[|kvs| - 1];
      assert kvs == init + [last];
      KeysOfSnoc(kvs);
      NoDupSnoc(KeysOf(init), last.0);
      AssignDistinct(init);
      AssignStep(init, last);
    }
  }

  /** A duplicate-free sequence stays so without its last element, which is not among the others. */
  lemma NoDupSnoc<T>(s: seq<T>, x: T)
    requires NoDup(s + [x])
    ensures NoDup(s) && x !in s
  {
    assert forall i :: 0 <= i < |s| ==> (s + [x])[i] == s[i];
    forall i | 0 <= i < |s|
      ensures s[i] != x
    {
      assert (s + [x])[i] == s[i] && (s + [x])[|s|] == x;
    }
  }

  /** A new last key goes to the end and leaves the earlier values in place. */
  lemma AssignStep<K, V>(init: seq<(K, V)>, last: (K, V))
    requires last.0 !in KeysOf(init)
    requires Assign(init).order == KeysOf(init)
    requires forall i :: 0 <= i < |init| ==> init[i].0 in Assign(init).entries && Assign(init).entries[init[i].0] == init[i].1
    ensures Assign(init + [last]).order == KeysOf(init) + [last.0]
    ensures forall i :: 0 <= i < |init| + 1 ==>
      (init + [last])[i].0 in Assign(init + [last]).entries
      && Assign(init + [last]).entries[(init + [last])[i].0] == (init + [last])[i].1
  {
    var kvs := init + [last];
    assert kvs[..|kvs| - 1] == init;
    var prev := Assign(init);
    assert last.0 !in prev.entries by {
      assert last.0 !in Elems(prev.order);
    }
    forall i | 0 <= i < |kvs|
      ensures kvs[i].0 in Assign(kvs).entries && Assign(kvs).entries[kvs[i].0] == kvs[i].1
    {
      if i < |init| {
        assert kvs[i] == init[i];
        assert init[i].0 in KeysOf(init);
      }
    }
  }
}

/**
 * The network builder of src/network.py: from the keys of a correlation map
 * (`"A-B"` strings) derive the node set, node ids, interaction counts, edge
 * ids and the degree statistics.
 */
module Network {
  import opened Wrappers
  import opened PyColl
  import opened PyStr

  // ---------------------------------------------------------------------------
  // The derived node set

  /** Every key split at its separators, in key order (network.py:39). */
  function SplitKeys(keys: seq<string>): seq<seq<string>>
  {
    seq(|keys|, i requires 0 <= i < |keys| => Split(keys[i]))
  }

  /** `int_pairs`: every half of every key, flattened in key order. */
  function Halves(keys: seq<string>): seq<string>
  {
    Flatten(SplitKeys(keys))
  }

  /** `totalNode`: the set of all halves. */
  function NodeSet(keys: seq<string>): set<string>
  {
    Elems(Halves(keys))
  }

  /** A label is a node exactly when it is a split piece of some key. */
  lemma NodeSetMembers(keys: seq<string>, x: string)
    ensures x in NodeSet(keys) <==>
      exists i, j :: 0 <= i < |keys| && 0 <= j < |Split(keys[i])| && x == Split(keys[i])[j]
  {
    var parts := SplitKeys(keys);
    FlattenMember(parts, x);
    assert x in NodeSet(keys) <==> x in Flatten(parts);
    if x in NodeSet(keys) {
      var i :| 0 <= i < |parts| && x in parts[i];
      var j :| 0 <= j < |parts[i]| && parts[i][j] == x;
      assert x == Split(keys[i])[j];
    }
    if exists i, j :: 0 <= i < |keys| && 0 <= j < |Split(keys[i])| && x == Split(keys[i])[j] {
      var i, j :| 0 <= i < |keys| && 0 <= j < |Split(keys[i])| && x == Split(keys[i])[j];
      assert parts[i] == Split(keys[i]) && parts[i][j] == x;
      assert 0 <= i < |parts| && x in parts[i];
      assert x in Flatten(parts);
    }
  }

  // ---------------------------------------------------------------------------
  // _unlist

  /** `_unlist`: the inner lists appended one element at a time, in order. */
  method Unlist<T>(dataList: seq<seq<T>>) returns (newList: seq<T>)
    ensures newList == Flatten(dataList)
    ensures |newList| == TotalLength(dataList)
  {
    newList := [];
    for i := 0 to |dataList|
      invariant newList == Flatten(dataList[..i])
    {
      var obj := dataList[i];
      for j := 0 to |obj|
        invariant newList == Flatten(dataList[..i]) + obj[..j]
      {
        newList := newList + [obj[j]];
      }
      assert obj[..|obj|] == obj;
      assert dataList[..i + 1][..i] == dataList[..i];
    }
    assert dataList[..|dataList|] == dataList;
    FlattenLength(dataList);
  }

  // ---------------------------------------------------------------------------
  // _fill_count_id

  /**
   * A dict whose i-th key holds `offset + i` maps every key to `offset` plus its
   * position, never gives two keys the same id, and uses exactly the ids
   * `offset .. offset + len - 1`.
   */
  lemma SequentialIds(d: Dict<string, nat>, offset: nat)
    requires d.Valid()
    requires forall i :: 0 <= i < |d.order| ==> d.entries[d.order[i]] == offset + i
    ensures forall k :: k in d.entries ==> d.entries[k] == offset + IndexOf(d.order, k)
    ensures forall a, b :: a in d.entries && b in d.entries && a != b ==> d.entries[a] != d.entries[b]
    ensures forall v: int :: v in d.entries.Values <==> offset <= v < offset + |d.order|
  {
    SequentialIdsAt(d, offset);
    SequentialIdsDistinct(d, offset);
    SequentialIdsRange(d, offset);
  }

  /** Ids that are the offset plus the key's position are never shared. */
  lemma SequentialIdsDistinct(d: Dict<string, nat>, offset: nat)
    requires d.Valid()
    requires forall k :: k in d.entries ==> d.entries[k] == offset + IndexOf(d.order, k)
    ensures forall a, b :: a in d.entries && b in d.entries && a != b ==> d.entries[a] != d.entries[b]
  {
    forall a, b | a in d.entries && b in d.entries && a != b
      ensures d.entries[a] != d.entries[b]
    {
      assert a in Elems(d.order) && b in Elems(d.order);
      assert d.order[IndexOf(d.order, a)] == a && d.order[IndexOf(d.order, b)] == b;
    }
  }

  /** Each key's id is the offset plus its position in insertion order. */
  lemma SequentialIdsAt(d: Dict<string, nat>, offset: nat)
    requires d.Valid()
    requires forall i :: 0 <= i < |d.order| ==> d.entries[d.order[i]] == offset + i
    ensures forall k :: k in d.entries ==> d.entries[k] == offset + IndexOf(d.order, k)
  {
    forall k | k in d.entries
      ensures d.entries[k] == offset + IndexOf(d.order, k)
    {
      assert k in Elems(d.order);
      var j :| 0 <= j < |d.order| && d.order[j] == k;
      assert IndexOf(d.order, k) == j;
    }
  }

  /** The ids in use are exactly `offset .. offset + len - 1`. */
  lemma SequentialIdsRange(d: Dict<string, nat>, offset: nat)
    requires d.Valid()
    requires forall i :: 0 <= i < |d.order| ==> d.entries[d.order[i]] == offset + i
    ensures forall v: int :: v in d.entries.Values <==> offset <= v < offset + |d.order|
  {
    forall v: int
      ensures v in d.entries.Values <==> offset <= v < offset + |d.order|
    {
      if v in d.entries.Values {
        var k :| k in d.entries && d.entries[k] == v;
        assert k in Elems(d.order);
      }
      if offset <= v < offset + |d.order| {
        var k := d.order[v - offset];
        assert k in Elems(d.order);
        assert d.entries[k] == v;
      }
    }
  }

  /** `_fill_count_id`: node i of the enumeration gets id i. */
  method FillCountId(totalNode: seq<string>) returns (nodeData: Dict<string, nat>)
    requires NoDup(totalNode)
    ensures nodeData.Valid() && nodeData.order == totalNode
    ensures forall i :: 0 <= i < |totalNode| ==> nodeData.entries[totalNode[i]] == i
    ensures forall k :: k in nodeData.entries ==> nodeData.entries[k] == IndexOf(totalNode, k)
    ensures forall a, b :: a in nodeData.entries && b in nodeData.entries && a != b ==>
      nodeData.entries[a] != nodeData.entries[b]
    ensures forall v: int :: v in nodeData.entries.Values <==> 0 <= v < |totalNode|
  {
    nodeData := EmptyDict();
    for i := 0 to |totalNode|
      invariant nodeData.Valid() && nodeData.order == totalNode[..i]
      invariant forall j :: 0 <= j < i ==> nodeData.entries[totalNode[j]] == j
    {
      assert totalNode[i] !in totalNode[..i];
      nodeData := nodeData.Set(totalNode[i], i);
      assert totalNode[..i + 1] == totalNode[..i] + [totalNode[i]];
    }
    assert totalNode[..|totalNode|] == totalNode;
    SequentialIds(nodeData, 0);
  }

  // ---------------------------------------------------------------------------
  // _count_interations

  /** `_count_interations`: every node gets the number of times it occurs among the halves. */
  method CountInteractions<V>(correl: Dict<string, V>, totalNode: seq<string>)
    returns (counts: Dict<string, nat>)
    requires NoDup(totalNode)
    ensures counts.Valid() && counts.order == totalNode
    ensures forall n :: n in counts.entries ==> counts.entries[n] == Count(Halves(correl.order), n)
  {
    var intPairs := Unlist(SplitKeys(correl.order));
    assert intPairs == Halves(correl.order);
    counts := EmptyDict();
    for i := 0 to |totalNode|
      invariant counts.Valid() && counts.order == totalNode[..i]
      invariant forall n :: n in counts.entries ==> counts.entries[n] == Count(intPairs, n)
    {
      CountStep(counts, totalNode, i, intPairs);
      counts := counts.Set(totalNode[i], Count(intPairs, totalNode[i]));
    }
    assert totalNode[..|totalNode|] == totalNode;
  }

  /** One step of the counting loop: the next node goes last, with its count. */
  lemma CountStep(d: Dict<string, nat>, nodes: seq<string>, i: nat, halves: seq<string>)
    requires NoDup(nodes) && i < |nodes|
    requires d.Valid() && d.order == nodes[..i]
    requires forall n :: n in d.entries ==> d.entries[n] == Count(halves, n)
    ensures d.Set(nodes[i], Count(halves, nodes[i])).order == nodes[..i + 1]
    ensures forall n :: n in d.Set(nodes[i], Count(halves, nodes[i])).entries ==>
      d.Set(nodes[i], Count(halves, nodes[i])).entries[n] == Count(halves, n)
  {
    assert nodes[i] !in nodes[..i];
    assert nodes[..i + 1] == nodes[..i] + [nodes[i]];
  }

  /** `ki_list`: the values of a dict of counts, in its order. */
  function Degrees(order: seq<string>, entries: map<string, nat>): (ks: seq<nat>)
    requires Elems(order) <= entries.Keys
    ensures |ks| == |order|
    ensures forall i :: 0 <= i < |order| ==> ks[i] == entries[order[i]]
  {
    if |order| == 0 then [] else [entries[order[0]]] + Degrees(order[1..], entries)
  }

  function DegreeList(counts: Dict<string, nat>): seq<nat>
    requires counts.Valid()
  {
    Degrees(counts.order, counts.entries)
  }

  function SumNat(s: seq<nat>): nat
  {
    if |s| == 0 then 0 else s[0] + SumNat(s[1..])
  }

  /** How many of `halves` are one of `nodes`, counted node by node. */
  function SumCounts(nodes: seq<string>, halves: seq<string>): nat
  {
    if |nodes| == 0 then 0 else Count(halves, nodes[0]) + SumCounts(nodes[1..], halves)
  }

  lemma {:induction false} SumCountsEmpty(nodes: seq<string>)
    ensures SumCounts(nodes, []) == 0
  {
    if |nodes| > 0 {
      SumCountsEmpty(nodes[1..]);
    }
  }

  lemma {:induction false} SumCountsCons(nodes: seq<string>, x: string, rest: seq<string>)
    ensures SumCounts(nodes, [x] + rest) == Count(nodes, x) + SumCounts(nodes, rest)
  {
    if |nodes| > 0 {
      var h := [x] + rest;
      assert h[0] == x && h[1..] == rest;
      CountCons(h, nodes[0]);
      CountCons(nodes, x);
      SumCountsCons(nodes[1..], x, rest);
    }
  }

  lemma {:induction false} CountOnce(nodes: seq<string>, x: string)
    requires NoDup(nodes) && x in nodes
    ensures Count(nodes, x) == 1
  {
    CountCons(nodes, x);
    if nodes[0] != x {
      CountOnce(nodes[1..], x);
    } else {
      assert x !in nodes[1..];
      CountPositive(nodes[1..], x);
    }
  }

  /** Counting every node of a duplicate-free covering sequence counts every half once. */
  lemma {:induction false} SumCountsCovering(nodes: seq<string>, halves: seq<string>)
    requires NoDup(nodes) && Elems(halves) <= Elems(nodes)
    ensures SumCounts(nodes, halves) == |halves|
  {
    if |halves| == 0 {
      SumCountsEmpty(nodes);
    } else {
      var x, rest := halves[0], halves[1..];
      assert halves == [x] + rest;
      assert Elems(rest) <= Elems(halves);
      SumCountsCovering(nodes, rest);
      SumCountsCons(nodes, x, rest);
      assert x in Elems(halves);
      CountOnce(nodes, x);
    }
  }

  lemma {:induction false} SumDegrees(order: seq<string>, entries: map<string, nat>, halves: seq<string>)
    requires Elems(order) <= entries.Keys
    requires forall n :: n in entries ==> entries[n] == Count(halves, n)
    ensures SumNat(Degrees(order, entries)) == SumCounts(order, halves)
  {
    if |order| > 0 {
      assert Elems(order[1..]) <= Elems(order);
      SumDegrees(order[1..], entries, halves);
    }
  }

  /**
   * With the nodes taken from the halves themselves (line 119), the
   * interaction counts add up to the number of halves.
   */
  lemma InteractionCountsTotal(keys: seq<string>, counts: Dict<string, nat>)
    requires counts.Valid() && Elems(counts.order) == NodeSet(keys)
    requires forall n :: n in counts.entries ==> counts.entries[n] == Count(Halves(keys), n)
    ensures SumNat(DegreeList(counts)) == |Halves(keys)|
  {
    SumDegrees(counts.order, counts.entries, Halves(keys));
    SumCountsCovering(counts.order, Halves(keys));
  }

  /** Every node occurs among the halves, so its count is at least one. */
  lemma InteractionCountsPositive(keys: seq<string>, counts: Dict<string, nat>)
    requires counts.Valid() && Elems(counts.order) == NodeSet(keys)
    requires forall n :: n in counts.entries ==> counts.entries[n] == Count(Halves(keys), n)
    ensures forall n :: n in counts.entries ==> counts.entries[n] >= 1
  {
    forall n | n in counts.entries
      ensures counts.entries[n] >= 1
    {
      assert n in Elems(Halves(keys));
      CountPositive(Halves(keys), n);
    }
  }

  // ---------------------------------------------------------------------------
  // _edge_count_id

  /** `_edge_count_id`: the i-th key gets the id `len(totalNode) + 100 + i`. */
  method EdgeCountId<V>(correl: Dict<string, V>, totalNode: seq<string>)
    returns (edgeId: Dict<string, nat>)
    requires correl.Valid()
    ensures edgeId.Valid() && edgeId.order == correl.order
    ensures forall i :: 0 <= i < |correl.order| ==>
      edgeId.entries[correl.order[i]] == |totalNode| + 100 + i
    ensures forall k :: k in edgeId.entries ==> edgeId.entries[k] >= |totalNode| + 100
    ensures forall a, b :: a in edgeId.entries && b in edgeId.entries && a != b ==>
      edgeId.entries[a] != edgeId.entries[b]
  {
    var keys, base := correl.order, |totalNode| + 100;
    edgeId := EmptyDict();
    for i := 0 to |keys|
      invariant edgeId.Valid() && edgeId.order == keys[..i]
      invariant forall j :: 0 <= j < i ==> edgeId.entries[keys[j]] == base + j
    {
      EdgeIdStep(edgeId, keys, i, base);
      edgeId := edgeId.Set(keys[i], base + i);
    }
    assert keys[..|keys|] == keys;
    SequentialIds(edgeId, base);
  }

  /** One step of the numbering loop: the next key goes last and gets the next id. */
  lemma EdgeIdStep(d: Dict<string, nat>, keys: seq<string>, i: nat, base: nat)
    requires NoDup(keys) && i < |keys|
    requires d.Valid() && d.order == keys[..i]
    requires forall j :: 0 <= j < i ==> d.entries[keys[j]] == base + j
    ensures d.Set(keys[i], base + i).order == keys[..i + 1]
    ensures forall j :: 0 <= j <= i ==> d.Set(keys[i], base + i).entries[keys[j]] == base + j
  {
    assert keys[i] !in keys[..i];
    assert keys[..i + 1] == keys[..i] + [keys[i]];
    forall j | 0 <= j < i
      ensures keys[j] != keys[i]
    {
      assert keys[j] in keys[..i];
    }
  }

  /** Node ids are below the node count, edge ids at least 100 above it: they never collide. */
  lemma NodeAndEdgeIdsDisjoint(nodeData: Dict<string, nat>, edgeId: Dict<string, nat>, n: nat)
    requires forall v: int :: v in nodeData.entries.Values <==> 0 <= v < n
    requires forall k :: k in edgeId.entries ==> edgeId.entries[k] >= n + 100
    ensures nodeData.entries.Values !! edgeId.entries.Values
  {
    forall v | v in edgeId.entries.Values
      ensures v !in nodeData.entries.Values
    {
      var k :| k in edgeId.entries && edgeId.entries[k] == v;
    }
  }

  // ---------------------------------------------------------------------------
  // _degree_dist

  /** Each count as a fraction of the total, in list order (network.py:58). */
  function Ratios(ks: seq<nat>, total: nat): (rs: seq<real>)
    requires total > 0
    ensures |rs| == |ks|
    ensures forall i :: 0 <= i < |ks| ==> rs[i] == ks[i] as real / total as real
  {
    if |ks| == 0 then [] else [ks[0] as real / total as real] + Ratios(ks[1..], total)
  }

  function SumReals(s: seq<real>): real
  {
    if |s| == 0 then 0.0 else s[0] + SumReals(s[1..])
  }

  predicate Ascending(s: seq<real>)
  {
    forall i, j :: 0 <= i < j < |s| ==> s[i] <= s[j]
  }

  /** Places `x` into an ascending sequence. */
  function Insert(x: real, s: seq<real>): (r: seq<real>)
    requires Ascending(s)
    ensures |r| == |s| + 1
    ensures Ascending(r)
    ensures multiset(r) == multiset(s) + multiset{x}
    ensures SumReals(r) == x + SumReals(s)
  {
    if |s| == 0 || x <= s[0] then
      AscendingCons(x, s);
      [x] + s
    else
      var tail := Insert(x, s[1..]);
      assert s == [s[0]] + s[1..];
      LowerBound(s[0], x, s[1..], tail);
      AscendingCons(s[0], tail);
      [s[0]] + tail
  }

  /** A head no larger than every element of an ascending tail keeps it ascending. */
  lemma AscendingCons(a: real, t: seq<real>)
    requires Ascending(t)
    requires |t| == 0 || a <= t[0]
    ensures Ascending([a] + t)
    ensures ([a] + t)[1..] == t
  {
    assert ([a] + t)[1..] == t;
  }

  lemma LowerBound(lo: real, x: real, s: seq<real>, t: seq<real>)
    requires lo <= x && forall i :: 0 <= i < |s| ==> lo <= s[i]
    requires multiset(t) == multiset(s) + multiset{x}
    ensures forall i :: 0 <= i < |t| ==> lo <= t[i]
  {
    forall i | 0 <= i < |t|
      ensures lo <= t[i]
    {
      assert t[i] in multiset(t);
      if t[i] != x {
        assert t[i] in multiset(s);
        var j :| 0 <= j < |s| && s[j] == t[i];
      }
    }
  }

  /** Python `sorted` on a list of floats: an ascending permutation. */
  function Sort(s: seq<real>): (r: seq<real>)
    ensures |r| == |s|
    ensures Ascending(r)
    ensures multiset(r) == multiset(s)
    ensures SumReals(r) == SumReals(s)
  {
    if |s| == 0 then []
    else
      assert s == [s[0]] + s[1..];
      Insert(s[0], Sort(s[1..]))
  }

  lemma {:induction false} SumRatios(ks: seq<nat>, total: nat)
    requires total > 0
    ensures SumReals(Ratios(ks, total)) == SumNat(ks) as real / total as real
  {
    if |ks| > 0 {
      SumRatios(ks[1..], total);
      var t := total as real;
      assert ks[0] as real / t + SumNat(ks[1..]) as real / t == (ks[0] + SumNat(ks[1..])) as real / t;
    }
  }

  /**
   * `_degree_dist`: each node's count as a fraction of the total count,
   * sorted ascending. Fails when there are counts but they are all zero.
   */
  function DegreeDist(counts: Dict<string, nat>): (r: Result<seq<real>, Error>)
    requires counts.Valid()
    ensures r.Failure? <==> |counts.order| > 0 && SumNat(DegreeList(counts)) == 0
    ensures r.Failure? ==> r.error == ZeroDivisionError
    ensures r.Success? ==> |r.value| == |counts.order| && Ascending(r.value)
  {
    var kiList := DegreeList(counts);
    var totalKi := SumNat(kiList);
    if |kiList| == 0 then Success([])
    else if totalKi == 0 then Failure(ZeroDivisionError)
    else Success(Sort(Ratios(kiList, totalKi)))
  }

  /** The sorted values are the nodes' fractions of the total count, and they add up to 1. */
  lemma DegreeDistFractions(counts: Dict<string, nat>)
    requires counts.Valid()
    requires SumNat(DegreeList(counts)) > 0
    ensures var kiList := DegreeList(counts);
      && multiset(DegreeDist(counts).value) == multiset(Ratios(kiList, SumNat(kiList)))
      && SumReals(DegreeDist(counts).value) == 1.0
  {
    var kiList := DegreeList(counts);
    var totalKi := SumNat(kiList);
    var ratios := Ratios(kiList, totalKi);
    assert DegreeDist(counts).value == Sort(ratios);
    SumRatios(kiList, totalKi);
    SelfRatio(totalKi);
  }

  /**
   * On the counts `write_network_xml` builds (line 157), `_degree_dist` never
   * divides by zero: the counts add up to the number of halves, and there is a
   * half whenever there is a node.
   */
  lemma DegreeDistOfNetwork(keys: seq<string>, counts: Dict<string, nat>)
    requires counts.Valid() && Elems(counts.order) == NodeSet(keys)
    requires forall n :: n in counts.entries ==> counts.entries[n] == Count(Halves(keys), n)
    ensures DegreeDist(counts).Success?
    ensures |counts.order| > 0 ==> SumReals(DegreeDist(counts).value) == 1.0
  {
    InteractionCountsTotal(keys, counts);
    if |counts.order| > 0 {
      assert counts.order[0] in Elems(Halves(keys));
      DegreeDistFractions(counts);
    }
  }

  lemma SelfRatio(n: nat)
    requires n > 0
    ensures n as real / n as real == 1.0
  {
  }

  // ---------------------------------------------------------------------------
  // node_fraction

  /**
   * `node_fraction`: for every distinct count k, the number of nodes with
   * count k divided by the number of nodes.
   */
  method NodeFraction(counts: Dict<string, nat>) returns (retdata: map<nat, real>)
    requires counts.Valid()
    ensures retdata.Keys == Elems(DegreeList(counts))
    ensures forall k :: k in retdata ==>
      retdata[k] == Count(DegreeList(counts), k) as real / |counts.order| as real
  {
    var kiList := DegreeList(counts);
    var kGroups := Elems(kiList);
    retdata := map[];
    var rest := kGroups;
    while rest != {}
      invariant rest <= kGroups
      invariant retdata.Keys == kGroups - rest
      invariant forall k :: k in retdata ==>
        retdata[k] == Count(kiList, k) as real / |counts.order| as real
      decreases rest
    {
      var ks :| ks in rest;
      // the number of nodes whose count is ks (network.py:88)
      retdata := retdata[ks := Count(kiList, ks) as real / |counts.order| as real];
      rest := rest - {ks};
    }
  }

  /** Every fraction reported by `node_fraction` lies in (0, 1]. */
  lemma NodeFractionBounds(counts: Dict<string, nat>, retdata: map<nat, real>)
    requires counts.Valid()
    requires retdata.Keys == Elems(DegreeList(counts))
    requires forall k :: k in retdata ==>
      retdata[k] == Count(DegreeList(counts), k) as real / |counts.order| as real
    ensures forall k :: k in retdata ==> 0.0 < retdata[k] <= 1.0
  {
    forall k | k in retdata
      ensures 0.0 < retdata[k] <= 1.0
    {
      var c := Count(DegreeList(counts), k);
      var n := |counts.order|;
      assert k in Elems(DegreeList(counts));
      CountPositive(DegreeList(counts), k);
      assert 0 < c <= n;
      FractionBounds(c, n);
    }
  }

  lemma FractionBounds(c: nat, n: nat)
    requires 0 < c <= n
    ensures 0.0 < c as real / n as real <= 1.0
  {
    var q := c as real / n as real;
    assert q * n as real == c as real;
  }

  lemma ExampleHalves()
    ensures Halves(["A-B", "B-C"]) == ["A", "B", "B", "C"]
  {
    PairKeySplit("A", "B");
    PairKeySplit("B", "C");
    var parts := SplitKeys(["A-B", "B-C"]);
    assert parts == [["A", "B"], ["B", "C"]];
    assert parts[..1] == [["A", "B"]];
    assert parts[..1][..0] == [];
    assert Flatten(parts[..1]) == ["A", "B"];
  }

  /** The example network of two correlations: `{"A-B", "B-C"}`. */
  lemma TwoEdgeExample()
    ensures NodeSet(["A-B", "B-C"]) == {"A", "B", "C"}
    ensures Count(Halves(["A-B", "B-C"]), "A") == 1
    ensures Count(Halves(["A-B", "B-C"]), "B") == 2
    ensures Count(Halves(["A-B", "B-C"]), "C") == 1
  {
    ExampleHalves();
    var h: seq<string> := ["A", "B", "B", "C"];
    var h1, h2, h3 := h[..1], h[..2], h[..3];
    assert h1 == ["A"] && h2 == ["A", "B"] && h3 == ["A", "B", "B"];
    assert h1[..0] == [] && h2[..1] == h1 && h3[..2] == h2 && h[..3] == h3;
    assert Count(h1, "A") == 1 && Count(h1, "B") == 0 && Count(h1, "C") == 0;
    assert Count(h2, "A") == 1 && Count(h2, "B") == 1 && Count(h2, "C") == 0;
    assert Count(h3, "A") == 1 && Count(h3, "B") == 2 && Count(h3, "C") == 0;
  }
}

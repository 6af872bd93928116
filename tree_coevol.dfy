/**
 * `tree_coevol` of src/tree.py: it builds one pairwise-distance map per tree
 * file, then scores every pair of tree files with `pearsonr` on their
 * key-sorted, filtered distance sequences.
 */
module TreeCoevol {
  import opened Wrappers
  import opened PyColl
  import opened PyStr
  import opened TreePairs

  /**
   * What the code uses of a parsed tree: the leaf names in level order
   * (`get_terminals('level')`) and the branch-length distance between two leaves.
   */
  datatype Phylo = Phylo(taxa: seq<string>, distance: (string, string) -> real)

  /** The state that `tree_coevol` fills in its first loop. */
  datatype TreeData = TreeData(distances: map<string, Dict<string, real>>, taxa: map<string, seq<string>>)

  /** The per-tree maps (`tree_data`) and the scores (`correl`) of one run. */
  datatype Coevolution = Coevolution(data: TreeData, correl: Dict<string, real>)

  /** The key of a pair of labels: `a + "-" + b`. */
  function PairKey(p: Pair): (key: string)
    ensures |key| == |p.0| + 1 + |p.1| && key[|p.0|] == SEP
  {
    p.0 + "-" + p.1
  }

  /** The key gives back both labels: the part before the `-` and the part after it. */
  lemma PairKeyParts(p: Pair)
    ensures PairKey(p)[..|p.0|] == p.0 && PairKey(p)[|p.0| + 1..] == p.1
  {
    assert PairKey(p) == p.0 + [SEP] + p.1;
  }

  /** Labels without a `-` give every pair its own key. */
  lemma PairKeyInjective(p: Pair, q: Pair)
    requires SEP !in p.0 && SEP !in p.1 && SEP !in q.0 && SEP !in q.1
    requires PairKey(p) == PairKey(q)
    ensures p == q
  {
    PairKeySplit(p.0, p.1);
    PairKeySplit(q.0, q.1);
  }

  // ---------------------------------------------------------------------------
  // The distance map of one tree

  /** The keys written for a set of pairs. */
  ghost function PairKeys(pairs: set<Pair>): set<string>
  {
    set p | p in pairs :: PairKey(p)
  }

  /** Each key of `d` is the key of one of `pairs` and holds that pair's distance. */
  ghost predicate DistancesOf(phy: Phylo, d: Dict<string, real>, pairs: set<Pair>)
  {
    && d.Valid()
    && d.entries.Keys == PairKeys(pairs)
    && forall k :: k in d.entries ==>
      exists p :: p in pairs && PairKey(p) == k && d.entries[k] == phy.distance(p.0, p.1)
  }

  /**
   * `d` is a possible `tree_data[tree_file]` for `phy`: one key per pair of
   * `unique_pairs(taxa)`, each holding the distance of a pair with that key.
   */
  ghost predicate IsDistanceMap(phy: Phylo, d: Dict<string, real>)
  {
    DistancesOf(phy, d, UniquePairs(phy.taxa))
  }

  /**
   * The loop over `taxon_pairs` (lines 51-52). The set is visited in an order
   * the model leaves open: each turn takes any pair not yet visited.
   */
  method FillDistances(phy: Phylo, pairs: set<Pair>) returns (d: Dict<string, real>)
    ensures DistancesOf(phy, d, pairs)
  {
    var todo := pairs;
    ghost var done: set<Pair> := {};
    d := EmptyDict();
    while todo != {}
      invariant done <= pairs && todo == pairs - done
      invariant DistancesOf(phy, d, done)
      decreases |todo|
    {
      var p :| p in todo;
      DistanceStep(phy, d, done, p);
      RemoveOneSize(todo, p);
      d := d.Set(PairKey(p), phy.distance(p.0, p.1));
      todo := todo - {p};
      done := done + {p};
    }
  }

  /** Writing the distance of one more pair keeps the loop's invariant. */
  lemma DistanceStep(phy: Phylo, d: Dict<string, real>, done: set<Pair>, p: Pair)
    requires DistancesOf(phy, d, done)
    ensures DistancesOf(phy, d.Set(PairKey(p), phy.distance(p.0, p.1)), done + {p})
  {
    var v := phy.distance(p.0, p.1);
    var d' := d.Set(PairKey(p), v);
    assert d'.entries == d.entries[PairKey(p) := v];
    PairKeysAdd(done, p);
    forall k | k in d'.entries
      ensures exists q :: q in done + {p} && PairKey(q) == k && d'.entries[k] == phy.distance(q.0, q.1)
    {
      if k == PairKey(p) {
        assert p in done + {p};
      } else {
        var q :| q in done && PairKey(q) == k && d.entries[k] == phy.distance(q.0, q.1);
        assert q in done + {p};
      }
    }
  }

  /** One more pair adds its key to the keys. */
  lemma PairKeysAdd(done: set<Pair>, p: Pair)
    ensures PairKeys(done + {p}) == PairKeys(done) + {PairKey(p)}
  {
  }

  /** Labels of `unique_pairs(taxa)` are leaves of the tree. */
  lemma PairsOfLeaves(phy: Phylo)
    requires forall i :: 0 <= i < |phy.taxa| ==> SEP !in phy.taxa[i]
    ensures forall p :: p in UniquePairs(phy.taxa) ==> SEP !in p.0 && SEP !in p.1
  {
    forall p | p in UniquePairs(phy.taxa)
      ensures SEP !in p.0 && SEP !in p.1
    {
      UniquePairsMembers(phy.taxa, p.0, p.1);
    }
  }

  /** With leaf names free of `-`, the map holds the distance of every pair under its own key. */
  lemma DistanceMapExact(phy: Phylo, d: Dict<string, real>)
    requires IsDistanceMap(phy, d)
    requires forall i :: 0 <= i < |phy.taxa| ==> SEP !in phy.taxa[i]
    ensures forall p :: p in UniquePairs(phy.taxa) ==>
      PairKey(p) in d.entries && d.entries[PairKey(p)] == phy.distance(p.0, p.1)
  {
    var pairs := UniquePairs(phy.taxa);
    PairsOfLeaves(phy);
    forall p | p in pairs
      ensures PairKey(p) in d.entries && d.entries[PairKey(p)] == phy.distance(p.0, p.1)
    {
      assert PairKey(p) in PairKeys(pairs);
      var q :| q in pairs && PairKey(q) == PairKey(p) && d.entries[PairKey(p)] == phy.distance(q.0, q.1);
      PairKeyInjective(p, q);
    }
  }

  /** With distinct leaf names free of `-`, n leaves give n(n-1)/2 entries. */
  lemma DistanceMapSize(phy: Phylo, d: Dict<string, real>)
    requires IsDistanceMap(phy, d)
    requires forall i :: 0 <= i < |phy.taxa| ==> SEP !in phy.taxa[i]
    requires NoDup(phy.taxa)
    ensures |d.entries| * 2 == |phy.taxa| * (|phy.taxa| - 1)
  {
    var pairs := UniquePairs(phy.taxa);
    PairsOfLeaves(phy);
    PairKeysSize(pairs);
    UniquePairsCount(phy.taxa);
    assert |d.entries| == |d.entries.Keys|;
  }

  /** Pairs of `-`-free labels have as many keys as pairs. */
  lemma {:induction false} PairKeysSize(pairs: set<Pair>)
    requires forall p :: p in pairs ==> SEP !in p.0 && SEP !in p.1
    ensures |PairKeys(pairs)| == |pairs|
  {
    if pairs != {} {
      var p :| p in pairs;
      var rest := pairs - {p};
      PairKeysSize(rest);
      assert PairKeys(pairs) == PairKeys(rest) + {PairKey(p)};
      assert PairKey(p) !in PairKeys(rest) by {
        forall q | q in rest
          ensures PairKey(q) != PairKey(p)
        {
          if PairKey(q) == PairKey(p) {
            PairKeyInjective(q, p);
          }
        }
      }
      RemoveOneSize(pairs, p);
    }
  }

  // ---------------------------------------------------------------------------
  // Loading the trees

  /** Position of the first file `read` cannot parse, or `|files|` when it parses all. */
  function FirstUnreadable(files: seq<string>, read: string -> Option<Phylo>): (r: nat)
    ensures r <= |files|
    ensures forall i :: 0 <= i < r ==> read(files[i]).Some?
    ensures r < |files| ==> read(files[r]).None?
  {
    if |files| == 0 then 0
    else if read(files[0]).None? then 0
    else 1 + FirstUnreadable(files[1..], read)
  }

  /** `data` holds, for every file, its leaves and a distance map of its tree. */
  ghost predicate Loaded(files: seq<string>, read: string -> Option<Phylo>, data: TreeData)
  {
    && data.distances.Keys == Elems(files)
    && data.taxa.Keys == Elems(files)
    && forall f :: f in data.distances ==>
      read(f).Some? && data.taxa[f] == read(f).value.taxa && IsDistanceMap(read(f).value, data.distances[f])
  }

  /**
   * The loop over `tree_objects` (lines 44-52). `read` stands for `Phylo.read`
   * followed by `Phylogeny.from_tree`; `None` is a file it cannot parse, whose
   * exception ends the run.
   */
  method LoadTrees(files: seq<string>, read: string -> Option<Phylo>) returns (r: Result<TreeData, Error>)
    ensures r.Failure? <==> exists i :: 0 <= i < |files| && read(files[i]).None?
    ensures r.Failure? ==> r.error == ParseError(files[FirstUnreadable(files, read)])
    ensures r.Success? ==> Loaded(files, read, r.value)
  {
    var data := TreeData(map[], map[]);
    for c := 0 to |files|
      invariant c <= FirstUnreadable(files, read)
      invariant Loaded(files[..c], read, data)
    {
      var file := files[c];
      var tree := read(file);
      if tree.None? {
        r := Failure(ParseError(file));
        return;
      }
      var phy := tree.value;
      var d := FillDistances(phy, UniquePairs(phy.taxa));
      LoadStep(files, read, data, c, d);
      data := TreeData(data.distances[file := d], data.taxa[file := phy.taxa]);
    }
    assert files[..|files|] == files;
    r := Success(data);
  }

  /** Storing the leaves and the distance map of file `c` extends `Loaded` by that file. */
  lemma LoadStep(files: seq<string>, read: string -> Option<Phylo>, data: TreeData, c: nat, d: Dict<string, real>)
    requires c < |files| && read(files[c]).Some?
    requires Loaded(files[..c], read, data)
    requires IsDistanceMap(read(files[c]).value, d)
    ensures Loaded(files[..c + 1], read,
      TreeData(data.distances[files[c] := d], data.taxa[files[c] := read(files[c]).value.taxa]))
  {
    assert files[..c + 1] == files[..c] + [files[c]];
    assert Elems(files[..c + 1]) == Elems(files[..c]) + {files[c]};
  }

  // ---------------------------------------------------------------------------
  // Scoring tree pairs

  /**
   * The name a tree file gets in a `correl` key (tree.py:69): every leading
   * character that occurs in the folder name is stripped from the path, and
   * then every leading slash.
   */
  function StripName(folder: string, path: string): string
  {
    LStrip(LStrip(path, folder), "/")
  }

  /**
   * What is left is a suffix of the path that does not start with `/`, and
   * every character removed is a character of the folder name or a `/`.
   */
  lemma StripNameShape(folder: string, path: string)
    ensures var name := StripName(folder, path);
      && |name| <= |path| && name == path[|path| - |name|..]
      && (forall i :: 0 <= i < |path| - |name| ==> path[i] in folder || path[i] == '/')
      && (name == [] || name[0] != '/')
  {
    var once := LStrip(path, folder);
    var name := LStrip(once, "/");
    LStripShape(path, folder);
    LStripShape(once, "/");
    assert path[|path| - |name|..] == once[|once| - |name|..];
    forall i | 0 <= i < |path| - |name|
      ensures path[i] in folder || path[i] == '/'
    {
      if i >= |path| - |once| {
        assert path[i] == once[i - (|path| - |once|)];
      }
    }
  }

  /** A file directly inside a folder whose name has no `/` is stripped to its own name. */
  lemma StripNameOfChild(folder: string, name: string)
    requires '/' !in folder
    requires name == [] || name[0] != '/'
    ensures StripName(folder, folder + "/" + name) == name
  {
    LStripPrefix(folder, "/" + name, folder);
    assert folder + "/" + name == folder + ("/" + name);
    LStripPrefix("/", name, "/");
  }

  /**
   * When the folder name has a `/`, stripping goes on into the file name:
   * two different files of folder `a/b` both give `.x`.
   */
  lemma StripNameCollision()
    ensures StripName("a/b", "a/b/ab.x") == ".x"
    ensures StripName("a/b", "a/b/b.x") == ".x"
  {
    LStripPrefix("a/b/ab", ".x", "a/b");
    LStripPrefix("a/b/b", ".x", "a/b");
    assert "a/b/ab" + ".x" == "a/b/ab.x";
    assert "a/b/b" + ".x" == "a/b/b.x";
  }

  /** The `correl` key of a pair of tree files: both stripped names around one `-`. */
  function CorrelKey(folder: string, p: Pair): string
  {
    StripName(folder, p.0) + "-" + StripName(folder, p.1)
  }

  /** With `-`-free stripped names, two pairs share a key exactly when they share both stripped names. */
  lemma CorrelKeyInjective(folder: string, p: Pair, q: Pair)
    requires SEP !in StripName(folder, p.0) && SEP !in StripName(folder, p.1)
    requires SEP !in StripName(folder, q.0) && SEP !in StripName(folder, q.1)
    ensures CorrelKey(folder, p) == CorrelKey(folder, q) <==>
      StripName(folder, p.0) == StripName(folder, q.0) && StripName(folder, p.1) == StripName(folder, q.1)
  {
    PairKeySplit(StripName(folder, p.0), StripName(folder, p.1));
    PairKeySplit(StripName(folder, q.0), StripName(folder, q.1));
  }

  /** Every tree file keeps its own `-`-free name once stripped. */
  ghost predicate DistinctNames(folder: string, files: seq<string>)
  {
    && (forall f :: f in files ==> SEP !in StripName(folder, f))
    && (forall f, g :: f in files && g in files && f != g ==> StripName(folder, f) != StripName(folder, g))
  }

  /** Files with distinct `-`-free stripped names give every pair of `unique_pairs(files)` its own `correl` key. */
  lemma DistinctCorrelKeys(folder: string, files: seq<string>, pairs: seq<Pair>)
    requires DistinctNames(folder, files)
    requires NoDup(pairs) && Elems(pairs) <= UniquePairs(files)
    ensures forall i, j :: 0 <= i < j < |pairs| ==> CorrelKey(folder, pairs[i]) != CorrelKey(folder, pairs[j])
  {
    forall i, j | 0 <= i < j < |pairs|
      ensures CorrelKey(folder, pairs[i]) != CorrelKey(folder, pairs[j])
    {
      var p, q := pairs[i], pairs[j];
      assert p in Elems(pairs) && q in Elems(pairs);
      UniquePairsMembers(files, p.0, p.1);
      UniquePairsMembers(files, q.0, q.1);
      CorrelKeyInjective(folder, p, q);
    }
  }

  /**
   * The score of one pair of tree files: `pearsonr` of the two maps' values
   * in key order, restricted to `common_taxa`. `pearsonr` gives `None` for
   * two value lists it rejects with a ValueError.
   */
  function Score(distances: map<string, Dict<string, real>>, pearsonr: (seq<real>, seq<real>) -> Option<real>,
                 p: Pair): Option<real>
    requires p.0 in distances && p.1 in distances
    requires distances[p.0].Valid() && distances[p.1].Valid()
  {
    var d0, d1 := distances[p.0], distances[p.1];
    var common := CommonKeys(d0, d1);
    pearsonr(FilterValues(SortDictByKey(d0), common), FilterValues(SortDictByKey(d1), common))
  }

  /** The lookups of the scoring loop succeed for every visited pair. */
  ghost predicate Scorable(distances: map<string, Dict<string, real>>, pairs: seq<Pair>)
  {
    forall i :: 0 <= i < |pairs| ==>
      pairs[i].0 in distances && pairs[i].1 in distances
      && distances[pairs[i].0].Valid() && distances[pairs[i].1].Valid()
  }

  /** The score of every visited pair, in visiting order, `None` for each pair `pearsonr` rejects. */
  ghost function Scores(distances: map<string, Dict<string, real>>,
                        pearsonr: (seq<real>, seq<real>) -> Option<real>, pairs: seq<Pair>)
    : (scores: seq<Option<real>>)
    requires Scorable(distances, pairs)
  {
    seq(|pairs|, i requires 0 <= i < |pairs| => Score(distances, pearsonr, pairs[i]))
  }

  /** Every score is present. */
  predicate AllSome<T>(s: seq<Option<T>>)
  {
    forall i :: 0 <= i < |s| ==> s[i].Some?
  }

  /** Position of the first missing score, or the length when there is none. */
  function FirstNone<T>(s: seq<Option<T>>): (r: nat)
    ensures r <= |s|
    ensures forall i :: 0 <= i < r ==> s[i].Some?
    ensures r < |s| ==> s[r].None?
  {
    if |s| == 0 then 0
    else
      var r := FirstNone(s[..|s| - 1]);
      if r < |s| - 1 then r
      else if s[|s| - 1].None? then |s| - 1
      else |s|
  }

  /** The assignments `correl[key] = score` of the first `n` visited pairs, in visiting order. */
  function Scored(folder: string, pairs: seq<Pair>, scores: seq<Option<real>>, n: nat)
    : (kvs: seq<(string, real)>)
    requires n <= |pairs| && n <= |scores| && AllSome(scores[..n])
    ensures |kvs| == n
    ensures forall i :: 0 <= i < n ==> kvs[i] == (CorrelKey(folder, pairs[i]), scores[i].value)
  {
    if n == 0 then []
    else
      assert scores[..n - 1] == scores[..n][..n - 1];
      assert scores[..n][n - 1] == scores[n - 1];
      Scored(folder, pairs, scores, n - 1) + [(CorrelKey(folder, pairs[n - 1]), scores[n - 1].value)]
  }

  /** `correl` after the scoring loop has visited all of `pairs` in order, every score present. */
  function CorrelOf(folder: string, pairs: seq<Pair>, scores: seq<Option<real>>): Dict<string, real>
    requires |scores| == |pairs| && AllSome(scores)
  {
    assert scores[..|pairs|] == scores;
    Assign(Scored(folder, pairs, scores, |pairs|))
  }

  /**
   * The loop over `tree_pairs` (lines 63-71). `pairs` is the order in which
   * the set `unique_pairs(tree_objects)` is visited. The first pair whose
   * value lists `pearsonr` rejects ends the run with a ValueError.
   */
  method ScoreTreePairs(folder: string, distances: map<string, Dict<string, real>>,
                        pearsonr: (seq<real>, seq<real>) -> Option<real>, pairs: seq<Pair>)
    returns (r: Result<Dict<string, real>, Error>)
    requires Scorable(distances, pairs)
    ensures var scores := Scores(distances, pearsonr, pairs);
      var bad := FirstNone(scores);
      && (r.Failure? <==> bad < |pairs|)
      && (r.Failure? ==> r.error == ValueError(pairs[bad].0, pairs[bad].1))
      && (r.Success? ==> AllSome(scores) && r.value == CorrelOf(folder, pairs, scores))
  {
    ghost var scores := Scores(distances, pearsonr, pairs);
    var correl := EmptyDict();
    for c := 0 to |pairs|
      invariant AllSome(scores[..c])
      invariant correl == Assign(Scored(folder, pairs, scores, c))
    {
      var obj := pairs[c];
      var score := Score(distances, pearsonr, obj);
      assert score == scores[c];
      if score.None? {
        FirstNoneAt(scores, c);
        r := Failure(ValueError(obj.0, obj.1));
        return;
      }
      ScoredStep(folder, pairs, scores, c);
      correl := correl.Set(CorrelKey(folder, obj), score.value);
    }
    ScoredAll(folder, pairs, scores, correl);
    r := Success(correl);
  }

  /** After a loop that saw every score present, `correl` is `CorrelOf` and no score is missing. */
  lemma ScoredAll(folder: string, pairs: seq<Pair>, scores: seq<Option<real>>, correl: Dict<string, real>)
    requires |scores| == |pairs| && AllSome(scores[..|pairs|])
    requires correl == Assign(Scored(folder, pairs, scores, |pairs|))
    ensures AllSome(scores) && FirstNone(scores) == |pairs| && correl == CorrelOf(folder, pairs, scores)
  {
    assert scores[..|pairs|] == scores;
    FirstNoneAll(scores);
  }

  /** A missing score with every earlier one present is the first missing one. */
  lemma FirstNoneAt<T>(s: seq<Option<T>>, c: nat)
    requires c < |s| && AllSome(s[..c]) && s[c].None?
    ensures FirstNone(s) == c
  {
    assert forall i :: 0 <= i < c ==> s[..c][i] == s[i];
  }

  /** With every score present there is no missing one. */
  lemma FirstNoneAll<T>(s: seq<Option<T>>)
    requires AllSome(s)
    ensures FirstNone(s) == |s|
  {
  }

  /** One more present score adds its assignment at the end. */
  lemma ScoredStep(folder: string, pairs: seq<Pair>, scores: seq<Option<real>>, c: nat)
    requires c < |pairs| && c < |scores| && AllSome(scores[..c]) && scores[c].Some?
    ensures AllSome(scores[..c + 1])
    ensures Assign(Scored(folder, pairs, scores, c + 1))
      == Assign(Scored(folder, pairs, scores, c)).Set(CorrelKey(folder, pairs[c]), scores[c].value)
  {
    assert forall i :: 0 <= i < c ==> scores[..c + 1][i] == scores[..c][i];
    var kvs := Scored(folder, pairs, scores, c + 1);
    assert kvs[..c] == Scored(folder, pairs, scores, c);
  }

  /**
   * `pearsonr` rejects two value lists of different lengths. Under that
   * reading, the equal-size shortcut of lines 66-67 ends the run for two
   * trees whose maps have the same size but different keys.
   */
  lemma ShortcutRaises(distances: map<string, Dict<string, real>>,
                       pearsonr: (seq<real>, seq<real>) -> Option<real>, p: Pair)
    requires forall x: seq<real>, y: seq<real> :: |x| != |y| ==> pearsonr(x, y).None?
    requires p.0 in distances && p.1 in distances
    requires distances[p.0].Valid() && distances[p.1].Valid()
    requires |distances[p.0].entries| == |distances[p.1].entries|
    requires distances[p.0].entries.Keys != distances[p.1].entries.Keys
    ensures Score(distances, pearsonr, p).None?
  {
    EqualSizeShortcutMisaligns(distances[p.0], distances[p.1]);
  }

  /** `correl` has one key per visited pair's key, no other, and at most one entry per pair. */
  lemma CorrelKeys(folder: string, pairs: seq<Pair>, scores: seq<Option<real>>)
    requires |scores| == |pairs| && AllSome(scores)
    ensures var correl := CorrelOf(folder, pairs, scores);
      && |correl.order| <= |pairs|
      && forall k :: k in correl.entries <==> exists i :: 0 <= i < |pairs| && CorrelKey(folder, pairs[i]) == k
  {
    assert scores[..|pairs|] == scores;
    var kvs := Scored(folder, pairs, scores, |pairs|);
    AssignKeys(kvs);
    forall k
      ensures k in Elems(KeysOf(kvs)) <==> exists i :: 0 <= i < |pairs| && CorrelKey(folder, pairs[i]) == k
    {
      if exists i :: 0 <= i < |pairs| && CorrelKey(folder, pairs[i]) == k {
        var i :| 0 <= i < |pairs| && CorrelKey(folder, pairs[i]) == k;
        assert KeysOf(kvs)[i] == k;
      }
    }
  }

  /**
   * When the stripped names give every pair its own key, `correl` records
   * the keys in insertion order, one per pair, each holding that pair's score.
   */
  lemma CorrelOnePerPair(folder: string, pairs: seq<Pair>, scores: seq<Option<real>>)
    requires |scores| == |pairs| && AllSome(scores)
    requires forall i, j :: 0 <= i < j < |pairs| ==> CorrelKey(folder, pairs[i]) != CorrelKey(folder, pairs[j])
    ensures var correl := CorrelOf(folder, pairs, scores);
      && |correl.order| == |pairs|
      && (forall i :: 0 <= i < |pairs| ==> correl.order[i] == CorrelKey(folder, pairs[i]))
      && forall i :: 0 <= i < |pairs| ==>
        CorrelKey(folder, pairs[i]) in correl.entries && correl.entries[CorrelKey(folder, pairs[i])] == scores[i].value
  {
    assert scores[..|pairs|] == scores;
    var kvs := Scored(folder, pairs, scores, |pairs|);
    assert NoDup(KeysOf(kvs));
    AssignDistinct(kvs);
  }

  /**
   * With n distinct tree files and distinct stripped keys, `correl` has
   * n(n-1)/2 entries, one per unordered pair of files.
   */
  lemma CorrelSize(folder: string, files: seq<string>, pairs: seq<Pair>, scores: seq<Option<real>>)
    requires NoDup(files)
    requires NoDup(pairs) && Elems(pairs) == UniquePairs(files)
    requires |scores| == |pairs| && AllSome(scores)
    requires forall i, j :: 0 <= i < j < |pairs| ==> CorrelKey(folder, pairs[i]) != CorrelKey(folder, pairs[j])
    ensures |CorrelOf(folder, pairs, scores).entries| * 2 == |files| * (|files| - 1)
  {
    var correl := CorrelOf(folder, pairs, scores);
    CorrelOnePerPair(folder, pairs, scores);
    DistinctElems(correl.order);
    DistinctElems(pairs);
    UniquePairsCount(files);
  }
  /** n tree files with distinct `-`-free stripped names give n(n-1)/2 `correl` entries. */
  lemma CorrelSizeOfFiles(folder: string, files: seq<string>, pairs: seq<Pair>, scores: seq<Option<real>>)
    requires NoDup(files) && DistinctNames(folder, files)
    requires NoDup(pairs) && Elems(pairs) == UniquePairs(files)
    requires |scores| == |pairs| && AllSome(scores)
    ensures |CorrelOf(folder, pairs, scores).entries| * 2 == |files| * (|files| - 1)
  {
    DistinctCorrelKeys(folder, files, pairs);
    CorrelSize(folder, files, pairs, scores);
  }


  // ---------------------------------------------------------------------------
  // tree_coevol

  /**
   * `tree_coevol(tree_folder)` for the files `files` that the folder's glob
   * lists. `read` parses a file, `pearsonr` scores two value sequences and
   * `pairs` is the visiting order of `unique_pairs(files)`. `data` is the
   * state the loading loop leaves, whether or not the scoring loop then fails.
   */
  method TreeCoevolution(folder: string, files: seq<string>, read: string -> Option<Phylo>,
                         pearsonr: (seq<real>, seq<real>) -> Option<real>, pairs: seq<Pair>)
    returns (r: Result<Coevolution, Error>, ghost data: TreeData)
    requires NoDup(pairs) && Elems(pairs) == UniquePairs(files)
    ensures (exists i :: 0 <= i < |files| && read(files[i]).None?) ==>
      r == Failure(ParseError(files[FirstUnreadable(files, read)]))
    ensures (forall i :: 0 <= i < |files| ==> read(files[i]).Some?) ==>
      && Loaded(files, read, data)
      && Scorable(data.distances, pairs)
      && var scores := Scores(data.distances, pearsonr, pairs);
        var bad := FirstNone(scores);
        && (r.Failure? <==> bad < |pairs|)
        && (r.Failure? ==> r.error == ValueError(pairs[bad].0, pairs[bad].1))
        && (r.Success? ==> r.value == Coevolution(data, CorrelOf(folder, pairs, scores)))
  {
    var loaded := LoadTrees(files, read);
    if loaded.Failure? {
      return Failure(loaded.error), TreeData(map[], map[]);
    }
    var trees := loaded.value;
    data := trees;
    PairsAreLoaded(files, read, trees, pairs);
    var correl := ScoreTreePairs(folder, trees.distances, pearsonr, pairs);
    if correl.Failure? {
      return Failure(correl.error), data;
    }
    r := Success(Coevolution(trees, correl.value));
  }

  /** Both files of every pair of `unique_pairs(files)` have a distance map. */
  lemma PairsAreLoaded(files: seq<string>, read: string -> Option<Phylo>, data: TreeData, pairs: seq<Pair>)
    requires Loaded(files, read, data)
    requires Elems(pairs) == UniquePairs(files)
    ensures Scorable(data.distances, pairs)
  {
    forall i | 0 <= i < |pairs|
      ensures pairs[i].0 in data.distances && pairs[i].1 in data.distances
    {
      assert pairs[i] in Elems(pairs);
      UniquePairsMembers(files, pairs[i].0, pairs[i].1);
      assert pairs[i].0 in Elems(files) && pairs[i].1 in Elems(files);
    }
  }
}

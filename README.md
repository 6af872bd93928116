# EvoIntNet coevolution network core, modelled in Dafny

EvoIntNet scores protein coevolution from phylogenetic trees and draws the result as a
protein-interaction network. This project models its two core files.

- `src/tree.py`, the `tree_coevol` analysis:
  - For each tree file, build a map from every unordered pair of leaf names
    (`unique_pairs`, `rem_redundant`) to the branch-length distance between the two leaves.
  - For every unordered pair of tree files, pick the common taxa pairs.
  - Sort both maps by key (`_sort_dict_by_key`) and keep the values of the common keys.
  - Score the two value lists with `pearsonr`. The score is stored in `correl` under the key
    `"<file0>-<file1>"`, with the folder prefix stripped.
- `src/network.py`, the network built from the keys of such a correlation map:
  - Each key `"A-B"` is split at `-`. The node set is every piece of every key (`_unlist`).
  - Node i of the set's iteration order gets id i (`_fill_count_id`).
  - Every node gets its number of occurrences among the pieces (`_count_interations`).
  - Key i gets the edge id `len(nodes) + 100 + i` (`_edge_count_id`).
  - Degree statistics: `_degree_dist` and `node_fraction`.
  - Two writers: the Cytoscape XGMML document of `write_network_xml` and the edge list of
    `write_network_sif`.

Modules:

- `Wrappers` (`wrappers.dfy`): `Option`, `Result` and the four Python exceptions the core can
  raise: a tree file that does not parse, an `IndexError` on a key without `-`,
  `ZeroDivisionError`, and the `ValueError` of `pearsonr` rejecting the value lists of a pair.
- `PyColl` (`pycoll.dfy`): the Python list and dict behaviour the code relies on.
  - `Dict` is a dict's entries together with an order of its keys.
  - `Dict.Set` is `d[k] = v`. In the model a new key goes last and an existing key keeps its
    place, so a dict built by assignments records its keys in insertion order.
  - The source is Python 2, where a dict iterates in hash order, not in insertion order. The
    model therefore never lets a result depend on an insertion order it did not choose:
    - Where the order reaches the output, it is a parameter. An example is the `visit` order in
      which `nodeData.items()` is walked at network.py:123.
    - Elsewhere the result does not depend on it. `_sort_dict_by_key` sorts, `common_taxa` is
      only used for membership, and `_degree_dist` sorts the counts.
    - The writers take `correl` as a `Dict` whose `order` stands for its iteration order. Both
      passes over an unchanged dict see the same order.
  - `Assign` is a whole run of such assignments from an empty dict.
  - Also `Count` (`list.count`), `Flatten` and `IndexOf`.
- `PyStr` (`pystr.dfy`): string `<=` (lexicographic by code point), `split("-")` with empty pieces
  kept, `"-".join`, `lstrip(chars)` (strips a character *set*), and `"%s" % n` for ids.
- `Network` (`network.dfy`): the node set, the ids, the interaction counts and the degree
  statistics.
- `NetworkWriter` (`network_writer.dfy`):
  - Each `fp.write` of the XML writer is one `Line`. `Render` gives the exact text of that write.
  - `XmlDocument` is the reference document. The loop methods are proved equal to it.
- `TreePairs` (`tree.dfy`): `rem_redundant`, `unique_pairs`, `_sort_dict_by_key`, the
  `common_taxa` choice, and the filtered value lists handed to `pearsonr`.
- `TreeCoevol` (`tree_coevol.dfy`): the two loops of `tree_coevol` and the run as a whole.

How inputs are represented:

- Python sets and dicts that are iterated while their order reaches the output:
  - These are the node set at network.py:119, `nodeData` at network.py:123 and `tree_pairs`.
  - For each, the model takes the iteration order as a duplicate-free sequence parameter whose
    elements are the set or the dict's keys.
- For leaf names without `-`, the order of the loop over `taxon_pairs` does not matter. There
  the loop picks any unvisited pair.
- Floats are `real`.
- Parsing a tree, `pearsonr` and the clock are parameters of the model.
  - `pearsonr` returns `None` for two value lists scipy rejects with a ValueError.
  - The first such pair ends the run with that error.

Every method is proved against a function or predicate that specifies it. Each of those
specifications has lemmas about it: membership characterisations in both directions, sizes,
round trips, orderings and the error cases.

## Model

| member | source | states |
|---|---|---|
| PyColl.Count | src/network.py:42 | `list.count(x)` is at most the list's length |
| PyColl.CountPositive | src/network.py:42 | a value occurs in a list exactly when its count is positive |
| PyColl.CountAppend | src/network.py:42 | counting in a concatenation adds the counts of the parts |
| PyColl.CountCons | src/network.py:42 | counting from the front: the first element contributes one if it matches |
| PyColl.FlattenLength | src/network.py:21-27 | the flattened list is as long as all inner lists together |
| PyColl.FlattenMember | src/network.py:21-27 | an element is in the flattened list exactly when it is in one of the inner lists |
| PyColl.IndexOf | src/network.py:141 | the lookup of a node's position: the first occurrence, or the length when absent (both directions) |
| PyColl.DistinctElems | src/tree.py:22 | a duplicate-free list has as many distinct elements as positions |
| PyColl.Dict.Set | src/network.py:33 | `d[k] = v` maps `k` to `v` and leaves the other entries alone; a new key goes to the end of the order, an existing key keeps its place; the dict stays well formed: its order lists each key once, and exactly the keys |
| PyColl.EmptyDict | src/network.py:31 | `dict()` is well formed and has no keys |
| PyColl.Assign | src/tree.py:69 | a run of `d[k] = v` from an empty dict gives a well-formed dict |
| PyColl.AssignKeys | src/tree.py:69 | the assigned dict's keys are exactly the items' keys, and it has no more keys than items |
| PyColl.AssignDistinct | src/tree.py:69 | with distinct keys, the dict's insertion order is the assignment order, and it holds each item's value |
| PyStr.Le | src/tree.py:20 | Python's `<=` on `str`, lexicographic by code point; its order laws are the next four lemmas |
| PyStr.LeAntisymmetric | src/tree.py:20 | two strings each `<=` the other are equal |
| PyStr.LeTransitive | src/tree.py:20 | string `<=` is transitive |
| PyStr.LeTotal | src/tree.py:20 | any two strings are comparable by `<=` |
| PyStr.LeTotalOrder | src/tree.py:20 | string `<=` is reflexive, antisymmetric, transitive and total |
| PyStr.LtTransitive | src/tree.py:24 | `<` chained with `<=` is `<` |
| PyStr.Split | src/network.py:39 | `key.split("-")` has at least one piece |
| PyStr.SplitShape | src/network.py:39 | a split has one piece more than the separators, and no piece holds a `-` |
| PyStr.SplitHasSecond | src/network.py:141 | piece `[1]` exists exactly when the key holds a `-` |
| PyStr.JoinSplit | src/network.py:39 | joining the pieces with `-` gives the key back |
| PyStr.SplitPrefix | src/network.py:39 | a `-`-free prefix glues onto the first piece of what follows |
| PyStr.SplitJoin | src/tree.py:52 | splitting a `-`-join of `-`-free pieces gives the pieces back |
| PyStr.PairKeySplit | src/tree.py:52 | a key `a + "-" + b` of `-`-free labels splits back into `[a, b]` |
| PyStr.LStrip | src/tree.py:69 | `lstrip(chars)` drops the longest prefix of characters of `chars`; described by the two lemmas below |
| PyStr.LStripShape | src/tree.py:69 | `lstrip(chars)` leaves a suffix, removes only characters of `chars`, and leaves no such character in front |
| PyStr.LStripPrefix | src/tree.py:69 | a prefix of characters of `chars` is removed, and nothing after it |
| PyStr.NatStr | src/network.py:124 | `"%s" % n` is a non-empty string of decimal digits |
| PyStr.NatStrRoundTrip | src/network.py:124 | the printed id reads back as the same number |
| Network.SplitKeys | src/network.py:39 | `key.split("-")` for every key in key order; flattened by `Network.Halves` |
| Network.Halves | src/network.py:39 | `int_pairs`: every piece of every key, flattened in key order; its length and members are `Network.Unlist`'s contract |
| Network.NodeSet | src/network.py:119 | `totalNode`: the set of all pieces; characterised by the next lemma |
| Network.NodeSetMembers | src/network.py:119 | a label is a node exactly when it is a piece of some key |
| Network.Unlist | src/network.py:21-27 | `_unlist` is the flattening of its input, as long as the inner lists together |
| Network.SequentialIds | src/network.py:30-35 | ids given by position are each key's offset-plus-position, distinct, and exactly the range of positions |
| Network.FillCountId | src/network.py:30-35 | node i of the set's iteration order gets id i; every node's id is its position in that order; ids are distinct and are exactly `0 .. n-1` |
| Network.CountInteractions | src/network.py:38-44 | every node of the set maps to its number of occurrences among the key pieces |
| Network.Degrees | src/network.py:56 | `ki_list` has one value per node, the node's count, in dict order |
| Network.SumCountsCovering | src/network.py:57 | counting every node of a duplicate-free covering list counts every piece once |
| Network.InteractionCountsTotal | src/network.py:57 | the interaction counts add up to the number of key pieces |
| Network.InteractionCountsPositive | src/network.py:119-121 | every node's interaction count is at least one |
| Network.EdgeCountId | src/network.py:47-52 | key i, in correl order, gets `len(totalNode) + 100 + i`; the ids are distinct and above every node id |
| Network.NodeAndEdgeIdsDisjoint | src/network.py:33 | node ids and edge ids never collide |
| Network.Ratios | src/network.py:58 | each value is `float(x) / total_ki`, position by position |
| Network.Insert | src/network.py:58 | insertion into an ascending list keeps it ascending, adds exactly the value, and adds it to the sum |
| Network.Sort | src/network.py:58 | `sorted` gives an ascending permutation with the same sum |
| Network.SumRatios | src/network.py:57-58 | the fractions add up to the sum of the counts over the total |
| Network.DegreeDist | src/network.py:55-59 | `_degree_dist` raises ZeroDivisionError exactly when there are counts and all are zero; otherwise it returns one ascending value per node |
| Network.DegreeDistFractions | src/network.py:55-59 | the returned values are a permutation of the counts' fractions of the total, and add up to 1 |
| Network.DegreeDistOfNetwork | src/network.py:121-157 | on the counts `write_network_xml` computes, `_degree_dist` cannot fail, and its values add up to 1 when there is a node |
| Network.NodeFraction | src/network.py:84-90 | one entry per distinct count k, holding the number of nodes with count k over the number of nodes |
| Network.NodeFractionBounds | src/network.py:84-90 | every fraction of `node_fraction` lies in (0, 1] |
| Network.TwoEdgeExample | src/network.py:119-121 | the keys `A-B`, `B-C` give the nodes A, B, C with counts 1, 2, 1 |
| NetworkWriter.Render | src/network.py:96-153 | the exact text of each write, numbers printed with `NatStr`; the node and count writes are the next two lemmas |
| NetworkWriter.NodeOpenId | src/network.py:124 | the id of a `<node` write reads back from its text: the digits after `id="`, up to the closing quote, parse to the id |
| NetworkWriter.ConnectionsCount | src/network.py:134 | the `nbrConnections` write's value reads back as the node's count the same way |
| NetworkWriter.XmlHeader | src/network.py:96-117 | the header is 22 writes |
| NetworkWriter.NodeBlock | src/network.py:124-135 | one node is 12 writes |
| NetworkWriter.EdgeBlock | src/network.py:141-153 | one edge is 13 writes |
| NetworkWriter.FirstShortKey | src/network.py:141 | the first key without `-`: every earlier key has a `-`, and this one has none |
| NetworkWriter.XmlLines | src/network.py:94-155 | a fully paired key list gives 22 + 12·nodes + 13·keys + 1 writes |
| NetworkWriter.XmlDocument | src/network.py:94-155 | the reference document: header, one block per visited node, one per key, closing tag, or the IndexError of the first key without `-`; proved about in the lemmas below |
| NetworkWriter.EdgeDocument | src/network.py:140-153 | the edge loop's reference outcome: every key's block, or the IndexError of the first key without `-` |
| NetworkWriter.NodeSection | src/network.py:123-135 | the node loop's reference output: twelve writes per visited node, each block located by `NodeSectionAt` |
| NetworkWriter.KeyEdge | src/network.py:141-153 | one key's thirteen edge writes, with the node ids of its two pieces |
| NetworkWriter.EdgeSection | src/network.py:140-153 | the edge loop's reference output: thirteen writes per key, each block located by `EdgeSectionAt` |
| NetworkWriter.WriteNodes | src/network.py:123-135 | the node loop, walking `nodeData` in any `visit` order, writes each visited node's block with its `nodeData` id, its label and its interaction count |
| NetworkWriter.WriteEdges | src/network.py:140-153 | the edge loop writes key j's block with id `n + 100 + j` and the ids of its two pieces, or raises IndexError at the first key without `-` |
| NetworkWriter.EdgeStep | src/network.py:141 | one turn of the edge loop extends the edge section by exactly that key's block |
| NetworkWriter.WriteNetworkXml | src/network.py:94-155 | for any iteration orders of the node set and of `nodeData`, the whole writer produces the reference document, or the IndexError of the first key without `-` |
| NetworkWriter.XmlFailsOnShortKey | src/network.py:141 | the document fails exactly when some key has no `-`, and the error names the first such key |
| NetworkWriter.NodeSectionAt | src/network.py:123-135 | the i-th visited node's twelve writes sit at offset 12·i of the node section |
| NetworkWriter.EdgeSectionAt | src/network.py:140-153 | key j's thirteen writes sit at offset 13·j of the edge section |
| NetworkWriter.XmlNodeBlock | src/network.py:124-135 | in the document, the i-th visited node opens with its own label and an id that is its position in the node set's order (so the id points back to it), reports its interaction count, and closes |
| NetworkWriter.XmlEdgeBlock | src/network.py:141-153 | in the document, key j is an edge with id `n + 100 + j` whose source and target are the nodes of its first and second pieces |
| NetworkWriter.NodeBlockCloses | src/network.py:135 | a node block closes one node and no edge |
| NetworkWriter.EdgeBlockCloses | src/network.py:153 | an edge block closes one edge and no node |
| NetworkWriter.NodeSectionCloses | src/network.py:123-135 | the node section closes one node per visited node |
| NetworkWriter.EdgeSectionCloses | src/network.py:140-153 | the edge section closes one edge per key |
| NetworkWriter.HeaderCloses | src/network.py:96-117 | the header closes no node and no edge |
| NetworkWriter.XmlCloseCounts | src/network.py:94-155 | the document has one `</node>` per visited node and one `</edge>` per correlation key |
| NetworkWriter.SifLine | src/network.py:168 | one edge-list row: the key's two pieces around `\tpp\t`; the next lemmas give it for keys built from two labels |
| NetworkWriter.WriteNetworkSif | src/network.py:165-168 | one row `first\tpp\tsecond\n` per key, in order, or IndexError at the first key without `-` (both directions) |
| NetworkWriter.SifLineOfPair | src/network.py:168 | a key `a-b` of `-`-free labels gives the row `a\tpp\tb\n` |
| NetworkWriter.SifExample | src/network.py:168 | the key `P1-P2` gives the row `P1\tpp\tP2\n` |
| TreePairs.Canon | src/tree.py:20 | the kept form of a pair is ordered `a <= b` and is the pair or its swap |
| TreePairs.CanonSymmetric | src/tree.py:20 | a pair and its swap are kept as the same element |
| TreePairs.RemRedundant | src/tree.py:20 | every element of `rem_redundant` is ordered |
| TreePairs.RemRedundantMembers | src/tree.py:20 | `(a, b)` is kept exactly when `a <= b` and the pair occurs in either order |
| TreePairs.PairsWith | src/tree.py:22 | the inner loop of the comprehension: the pairs of one label with every other label; described by the next lemma |
| TreePairs.PairsFrom | src/tree.py:22 | the whole comprehension in loop order; described by `PairsFromMembers` |
| TreePairs.PairsWithMembers | src/tree.py:22 | the pairs of `a` with the other labels are exactly `(a, j)` with j a label other than `a` |
| TreePairs.PairsFromMembers | src/tree.py:22 | the comprehension gives exactly the pairs of two different labels |
| TreePairs.UniquePairs | src/tree.py:22 | every element of `unique_pairs` is ordered |
| TreePairs.UniquePairsMembers | src/tree.py:22 | `unique_pairs` is exactly the pairs of labels `a < b` |
| TreePairs.UniquePairsOfElems | src/tree.py:22 | repeating or reordering labels does not change `unique_pairs` |
| TreePairs.PairsOfSize | src/tree.py:22 | n labels have n(n-1)/2 unordered pairs |
| TreePairs.UniquePairsCount | src/tree.py:22 | `unique_pairs` of n distinct labels has n(n-1)/2 elements |
| TreePairs.InsertKey | src/tree.py:24 | insertion adds exactly the key |
| TreePairs.InsertKeySorted | src/tree.py:24 | insertion keeps the keys strictly ascending |
| TreePairs.SortKeys | src/tree.py:24 | sorting keeps exactly the keys |
| TreePairs.SortKeysSorted | src/tree.py:24 | sorting distinct keys makes them strictly ascending |
| TreePairs.AscendingUnique | src/tree.py:24 | two strictly ascending lists with the same keys are the same list |
| TreePairs.SortDictByKey | src/tree.py:24 | `_sort_dict_by_key`: the dict's keys sorted, each with its value; its contract is the next row |
| TreePairs.ItemsOfKeys | src/tree.py:24 | when the dict has every listed key, there is one item per key, holding that key's value |
| TreePairs.SortDictByKeyItems | src/tree.py:24 | `_sort_dict_by_key` gives the dict's items, each key once, in strictly ascending key order |
| TreePairs.SortDictByKeyKeys | src/tree.py:24 | the key order of the sorted items depends only on the set of keys |
| TreePairs.FilterItems | src/tree.py:70-71 | the comprehension's filter keeps no more items than it is given; the next lemmas say which |
| TreePairs.FilterValues | src/tree.py:70-71 | the values handed to `pearsonr` are no more than the items |
| TreePairs.FilterValuesOfItems | src/tree.py:70-71 | the values handed to `pearsonr` are the values of the kept items, one for one |
| TreePairs.FilterItemsMembers | src/tree.py:70-71 | filtering keeps exactly the items whose key is common |
| TreePairs.FilterItemsAscending | src/tree.py:70-71 | filtering keeps the ascending key order |
| TreePairs.FilterKeysElems | src/tree.py:70-71 | the kept keys are the item keys that are common |
| TreePairs.FilterSortedKeys | src/tree.py:70-71 | the kept keys of a sorted dict are ascending and are exactly its common keys |
| TreePairs.FilterSortedValues | src/tree.py:70-71 | every kept value is the dict's value for that key |
| TreePairs.FilterSortedLength | src/tree.py:70-71 | one value is kept per common key of the dict |
| TreePairs.CommonKeys | src/tree.py:64-67 | `common_taxa`: the shared keys when the sizes differ, else the first map's keys; described by the next lemma and the alignment lemmas |
| TreePairs.CommonKeysBounds | src/tree.py:64-67 | `common_taxa` lies within the first map's keys and holds every key both maps have; when the sizes differ it lies within both maps' keys; when they are equal it is all of the first map's keys |
| TreePairs.SharedKeysAlign | src/tree.py:70-71 | filtering by keys both maps have gives two lists of equal length whose i-th values come from the same key |
| TreePairs.CommonKeysAlignIff | src/tree.py:64-71 | the two value lists line up key by key exactly when the sizes differ or the first map's keys are all keys of the second |
| TreePairs.EqualSizeShortcutMisaligns | src/tree.py:66-67 | two maps of equal size with different keys give value lists of different lengths to `pearsonr` |
| TreePairs.DistinctAscending | src/tree.py:24 | a strictly ascending key list has no repeats |
| TreeCoevol.PairKey | src/tree.py:52 | the key of a pair is both labels around one `-` |
| TreeCoevol.PairKeyParts | src/tree.py:52 | the key's part before the `-` is the first label and the part after it the second |
| TreeCoevol.PairKeyInjective | src/tree.py:52 | with `-`-free labels, different pairs get different keys |
| TreeCoevol.FillDistances | src/tree.py:51-52 | whatever the visiting order, the map has exactly the visited pairs' keys, each holding the distance of a visited pair with that key |
| TreeCoevol.DistanceStep | src/tree.py:52 | one assignment adds that pair's key and distance and keeps the earlier ones |
| TreeCoevol.PairsOfLeaves | src/tree.py:50 | the labels of `unique_pairs(taxa)` are `-`-free when the leaf names are |
| TreeCoevol.DistanceMapExact | src/tree.py:50-52 | with `-`-free leaf names, every pair's own key holds that pair's distance |
| TreeCoevol.DistanceMapSize | src/tree.py:50-52 | n distinct `-`-free leaves give n(n-1)/2 map entries |
| TreeCoevol.PairKeysSize | src/tree.py:52 | `-`-free pairs have as many keys as pairs |
| TreeCoevol.FirstUnreadable | src/tree.py:45 | the first tree file that does not parse: every earlier file parses |
| TreeCoevol.LoadTrees | src/tree.py:44-52 | with every leaf named, the loading loop fails exactly when some file does not parse, naming the first; otherwise every file has its leaves and a distance map |
| TreeCoevol.LoadStep | src/tree.py:47-52 | storing one file's leaves and map extends the loaded state by that file |
| TreeCoevol.StripName | src/tree.py:69 | a tree file's name in a `correl` key; described by the three lemmas below |
| TreeCoevol.StripNameShape | src/tree.py:69 | the stripped name is a suffix of the path not starting with `/`, and only folder characters or `/` were removed |
| TreeCoevol.StripNameOfChild | src/tree.py:69 | a file directly inside a folder whose name has no `/` is stripped to its own name |
| TreeCoevol.StripNameCollision | src/tree.py:69 | stripping runs into the file name: two different files of folder `a/b` give the same name |
| TreeCoevol.CorrelKey | src/tree.py:69 | a pair's `correl` key: the two stripped names around one `-`; what it tells apart is the next lemma |
| TreeCoevol.CorrelKeyInjective | src/tree.py:69 | with `-`-free stripped names, two pairs get the same key exactly when both their stripped names agree |
| TreeCoevol.DistinctCorrelKeys | src/tree.py:58-69 | tree files with distinct `-`-free stripped names give the pairs of `unique_pairs(files)` pairwise distinct `correl` keys |
| TreeCoevol.Scores | src/tree.py:63-71 | the `pearsonr` outcome of every visited pair, in visiting order; `FirstNone` and `ScoreTreePairs` say how it decides the run |
| TreeCoevol.Score | src/tree.py:64-71 | one pair's `pearsonr` call on both maps' values in key order, restricted to `common_taxa`; `None` where scipy raises |
| TreeCoevol.ShortcutRaises | src/tree.py:64-71 | when two maps have equal size but different keys, the score is `None` for any `pearsonr` that rejects lists of different lengths |
| TreeCoevol.FirstNone | src/tree.py:63-71 | the first pair `pearsonr` rejects: every earlier pair was scored |
| TreeCoevol.CorrelOf | src/tree.py:69-71 | `correl` after every visited pair was scored: the assignments of their keys and scores in visiting order; described by the lemmas below |
| TreeCoevol.ScoreTreePairs | src/tree.py:63-71 | the scoring loop raises ValueError exactly when `pearsonr` rejects some pair, naming the first; otherwise `correl` is the assignments of all visited pairs, in order |
| TreeCoevol.CorrelKeys | src/tree.py:69 | `correl`'s keys are exactly the visited pairs' keys, at most one per pair (both directions) |
| TreeCoevol.CorrelOnePerPair | src/tree.py:69-71 | when the pairs' keys differ, `correl`'s insertion order is the visiting order, and each key holds that pair's score |
| TreeCoevol.CorrelSize | src/tree.py:58-71 | n tree files whose pairs have distinct keys give n(n-1)/2 `correl` entries |
| TreeCoevol.CorrelSizeOfFiles | src/tree.py:58-71 | n tree files with distinct `-`-free stripped names give n(n-1)/2 `correl` entries |
| TreeCoevol.TreeCoevolution | src/tree.py:28-76 | with every leaf named, a file that does not parse ends the run with its ParseError, naming the first; otherwise the trees are all loaded, and the run raises ValueError exactly when `pearsonr` rejects a pair, naming the first, or else `correl` holds the scores of every pair of files |
| TreeCoevol.PairsAreLoaded | src/tree.py:58-64 | both files of every pair of `unique_pairs(files)` have a distance map |

## Left out

- Plotting: `scatterplot_node` and `scatterplot_connection` (network.py:62-81) draw with matplotlib. They, and the calls to them at network.py:157-160, are not part of the model.
- File output:
  - The writers return the sequence of writes instead of opening `network.xml` or `network.sif`.
  - After an IndexError part of the file has already been written. The model returns only the error, not that partial file.
- The clock: the date and time of line 104 are parameters of the writer.
- `glob`: the tree files are a parameter.
- Parsing trees: `Phylo.read` followed by `Phylogeny.from_tree` is a parameter. It returns a leaf list in level order and a distance function, or nothing for a file that does not parse.
- TreeCoevol.LoadTrees: leaf names are assumed present, because `Phylo.taxa` is a `seq<string>`.
  - Bio.Phylo gives `None` as the name of an unnamed Newick leaf, as in `(,A);`.
  - tree.py:20-22 keeps such a leaf's pair with any distinct leaf and orders it as `(None, "A")`. Then tree.py:52 raises TypeError on `None + "-"`.
  - The model does not represent that TypeError. `TreeCoevol.TreeCoevolution` loads trees the same way and inherits this gap.
- `scipy.stats.pearsonr` is a parameter and is not interpreted.
  - It stands in for whatever `pearsonr` computes. The model keeps one `real` per pair where scipy returns a coefficient and a p-value.
  - `correl`'s values are never read by the network code.
- TreeCoevol.TreeCoevolution: the cases in which scipy raises ValueError are not spelled out. They vary with the scipy version. Recent versions reject lists of different lengths and lists of fewer than two values; older ones broadcast or return nan instead.
  - Any `pearsonr` may return `None`, and the run's contract covers every such rejection: it fails with the ValueError of the first rejected pair.
  - `TreeCoevol.ShortcutRaises` shows that the equal-size shortcut of tree.py:66-67 leads to this error when `pearsonr` rejects lists of different lengths.
- Progress output and printing: `sys.stdout.write` and the final `print` have no effect on the results.
  - `tree_coevol` returns None. The model returns its state (`tree_data` and `correl`) instead.
- Floating point: floats are `real`, so rounding in `/` and inside `pearsonr` is not modelled.
- Set and dict iteration order:
  - Python's order for the node set, `nodeData`, `taxon_pairs` and `tree_pairs` is a duplicate-free sequence parameter.
  - The `taxon_pairs` loop visits the pairs in an unspecified order.
  - `Dict.order` of a dict built by assignments is its insertion order. Python 2 iterates dicts in hash order instead. That order is not modelled. No modelled result depends on it except `correl`'s iteration order, which only the final `print` of tree.py:78-79 uses.
- `taxa_dict[tree_file]` is the `taxa` field of the model's `TreeData`.
- `common_taxa` is a list in the source. The model keeps it as a set, since it is only used for `in` membership.
- XML escaping: labels are written as they are, as the source does.
- Paths in `Phylogeny.distance`: a leaf name that occurs twice is not modelled. `distance` is a plain function of two names.
- NetworkWriter.WriteNetworkXml: does not compute `_degree_dist` and `node_fraction` on its counts.
  - Those steps come after the file is closed. They are `Network.DegreeDist` and `Network.NodeFraction`.
  - `Network.DegreeDistOfNetwork` shows they cannot fail on those counts.
- TreeCoevol.DistanceMapExact and TreeCoevol.DistanceMapSize: state exact contents only for leaf names without `-`.
  - With a `-` in a name, two pairs can share a key and the later assignment wins.
  - `IsDistanceMap` still holds in that case.
- TreeCoevol.CorrelOnePerPair: assumes distinct stripped-name keys. `StripNameCollision` shows that two files can collide. `DistinctCorrelKeys` derives the assumption from distinct `-`-free stripped file names.
- Bytes: the source is Python 2, so `str` is a byte string. `lstrip` strips bytes and `<=` compares bytes. `PyStr.Le`, `PyStr.LStrip` and `TreeCoevol.StripName` work on characters instead. They agree with the source on ASCII names and can differ for names with non-ASCII characters.
- TreePairs.EqualSizeShortcutMisaligns: states that the equal-size shortcut of tree.py:66-67 gives `pearsonr` lists of different lengths. Scipy's ValueError is left to `TreeCoevol.ShortcutRaises`.
- Integers are unbounded, as Python's are.
- `test.py` is not part of this model.

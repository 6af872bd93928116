/**
 * The writers of src/network.py: the XGMML document of `write_network_xml`
 * and the edge list of `write_network_sif`. Each `fp.write` call of the XML
 * writer is one `Line`, and `Render` gives the exact text that call writes.
 */
module NetworkWriter {
  import opened Wrappers
  import opened PyColl
  import opened PyStr
  import opened Network

  // ---------------------------------------------------------------------------
  // The lines of the XGMML document

  // The fixed lines of the header.
  const XML_DECLARATION: string := "<?xml version=\"1.0\" encoding=\"UTF-8\" standalone=\"yes\"?>\n"
  const GRAPH_OPEN: string := "<graph id=\"308\" label=\"EvoIntNet PPI Network\" directed=\"0\" cy:documentVersion=\"3.0\" xmlns:dc=\"http://purl.org/dc/elements/1.1/\" xmlns:xlink=\"http://www.w3.org/1999/xlink\" xmlns:rdf=\"http://www.w3.org/1999/02/22-rdf-syntax-ns#\" xmlns:cy=\"http://www.cytoscape.org\" xmlns=\"http://www.cs.rpi.edu/XGMML\">\n"
  const METADATA_OPEN: string := "\t<att name=\"networkMetadata\">\n"
  const RDF_OPEN: string := "\t<rdf:RDF>\n"
  const DESCRIPTION_OPEN: string := "\t<rdf:Description rdf:about=\"http://www.cytoscape.org/\">\n"
  const DC_TYPE: string := "\t<dc:type>Protein-Protein Interaction</dc:type>\n"
  const DC_DESCRIPTION: string := "\t<dc:description>N/A</dc:description>\n"
  const DC_IDENTIFIER: string := "\t<dc:identifier>N/A</dc:identifier>\n"
  const DC_TITLE: string := "\t<dc:title>EvoIntNet PPI Network</dc:title>\n"
  const DC_SOURCE: string := "\t<dc:source>http://www.cytoscape.org/</dc:source>\n"
  const DC_FORMAT: string := "\t<dc:format>Cytoscape-XGMML</dc:format>\n"
  const DESCRIPTION_CLOSE: string := "\t</rdf:Description>\n"
  const RDF_CLOSE: string := "\t</rdf:RDF>\n"
  const ATT_CLOSE: string := "\t</att>\n"
  const NETWORK_SHARED_NAME: string := "\t<att name=\"shared name\" value=\"EvoIntNet PPI Network\" type=\"string\"/>\n"
  const NETWORK_NAME: string := "\t<att name=\"name\" value=\"EvoIntNet PPI Network\" type=\"string\"/>\n"
  const NETWORK_SELECTED: string := "\t<att name=\"selected\" value=\"1\" type=\"boolean\"/>\n"
  const ANNOTATIONS_OPEN: string := "\t<att name=\"__Annotations\" type=\"list\">\n"
  const ANNOTATIONS_ITEM: string := "\t<att name=\"__Annotations\" value=\"\" type=\"string\"/>\n"
  const LAYOUT: string := "\t<att name=\"layoutAlgorithm\" value=\"Grid Layout\" type=\"string\" cy:hidden=\"1\"/>\n"

  // The fixed lines of node and edge blocks.
  const UNSELECTED: string := "\t\t<att name=\"selected\" value=\"0\" type=\"boolean\"/>\n"
  const INNER_ATT_CLOSE: string := "\t\t</att>\n"
  const SPECIES: string := "\t\t<att name=\"species\" value=\"\" type=\"string\"/>\n"
  const ALIASES_OPEN: string := "\t\t<att name=\"ALS-Aliases\" type=\"list\">\n"
  const ALIASES_ITEM: string := "\t\t\t<att name=\"ALS-Aliases\" value=\"\" type=\"string\"/>\n"
  const SEARCH_TERM: string := "\t\t<att name=\"searchTerm\" value=\"notSearchTerm\" type=\"string\"/>\n"
  const NODE_CLOSE: string := "\t</node>\n"
  const EDGE_SHARED_NAME: string := "\t\t<att name=\"shared name\" value=\"\" type=\"string\"/>\n"
  const EDGE_SHARED_INTERACTION: string := "\t\t<att name=\"shared interaction\" value=\"pp\" type=\"string\"/>\n"
  const EDGE_NAME: string := "\t\t<att name=\"name\" value=\"\" type=\"string\"/>\n"
  const EDGE_INTERACTION: string := "\t\t<att name=\"interaction\" value=\"pp\" type=\"string\"/>\n"
  const SENTENCES_OPEN: string := "\t\t<att name=\"TSI-Sentences\" type=\"list\">\n"
  const SENTENCES_ITEM: string := "\t\t\t<att name=\"TSI-Sentences\" value=\"\" type=\"string\"/>\n"
  const PUB_ENTRY_OPEN: string := "\t\t<att name=\"TSI-PubEntry\" type=\"list\">\n"
  const PUB_ENTRY_ITEM: string := "\t\t\t<att name=\"TSI-PubEntry\" value=\"\" type=\"string\"/>\n"
  const EDGE_CLOSE: string := "\t</edge>\n"
  const XML_FOOTER: string := "</graph>\n"

  // The text around the numbers of a node opening and of its `nbrConnections` write.
  const NODE_ID: string := "\t<node id=\""
  const NODE_LABEL: string := "\" label=\""
  const CONNECTIONS_VALUE: string := "\t\t<att name=\"nbrConnections\" value=\""
  const INTEGER_TYPE: string := "\" type=\"integer\"/>\n"
  const NODE_OPEN_END: string := "\">\n"

  /** The lines that `write_network_xml` writes with no data in them. */
  datatype Fixed =
    | XmlDeclaration | GraphOpen | MetadataOpen | RdfOpen | DescriptionOpen | DcType
    | DcDescription | DcIdentifier | DcTitle | DcSource | DcFormat | DescriptionClose
    | RdfClose | AttClose | NetworkSharedName | NetworkName | NetworkSelected
    | AnnotationsOpen | AnnotationsItem | Layout
    | Unselected | InnerAttClose | Species | AliasesOpen | AliasesItem | SearchTerm | NodeClose
    | EdgeSharedName | EdgeSharedInteraction | EdgeName | EdgeInteraction | SentencesOpen
    | SentencesItem | PubEntryOpen | PubEntryItem | EdgeClose | GraphClose

  /** One `fp.write` call of `write_network_xml`. */
  datatype Line =
    | Constant(fixed: Fixed)
      /** `date` and `clock` stand for the `strftime("%d/%m/%Y")` and `strftime("%H:%M:%S")` readings. */
    | DateStamp(date: string, clock: string)
    | NodeOpen(id: nat, name: string)
    | NodeAtt(att: string, name: string)
    | Connections(degree: nat)
    | EdgeOpen(id: nat, source: nat, target: nat)

  function FixedText(f: Fixed): string
  {
    match f
    case XmlDeclaration => XML_DECLARATION
    case GraphOpen => GRAPH_OPEN
    case MetadataOpen => METADATA_OPEN
    case RdfOpen => RDF_OPEN
    case DescriptionOpen => DESCRIPTION_OPEN
    case DcType => DC_TYPE
    case DcDescription => DC_DESCRIPTION
    case DcIdentifier => DC_IDENTIFIER
    case DcTitle => DC_TITLE
    case DcSource => DC_SOURCE
    case DcFormat => DC_FORMAT
    case DescriptionClose => DESCRIPTION_CLOSE
    case RdfClose => RDF_CLOSE
    case AttClose => ATT_CLOSE
    case NetworkSharedName => NETWORK_SHARED_NAME
    case NetworkName => NETWORK_NAME
    case NetworkSelected => NETWORK_SELECTED
    case AnnotationsOpen => ANNOTATIONS_OPEN
    case AnnotationsItem => ANNOTATIONS_ITEM
    case Layout => LAYOUT
    case Unselected => UNSELECTED
    case InnerAttClose => INNER_ATT_CLOSE
    case Species => SPECIES
    case AliasesOpen => ALIASES_OPEN
    case AliasesItem => ALIASES_ITEM
    case SearchTerm => SEARCH_TERM
    case NodeClose => NODE_CLOSE
    case EdgeSharedName => EDGE_SHARED_NAME
    case EdgeSharedInteraction => EDGE_SHARED_INTERACTION
    case EdgeName => EDGE_NAME
    case EdgeInteraction => EDGE_INTERACTION
    case SentencesOpen => SENTENCES_OPEN
    case SentencesItem => SENTENCES_ITEM
    case PubEntryOpen => PUB_ENTRY_OPEN
    case PubEntryItem => PUB_ENTRY_ITEM
    case EdgeClose => EDGE_CLOSE
    case GraphClose => XML_FOOTER
  }

  /** The text one write puts in the file; the `%s` fields are filled in with `NatStr` for numbers. */
  function Render(l: Line): string
  {
    match l
    case Constant(f) => FixedText(f)
    case DateStamp(date, clock) => "\t<dc:date>" + date + " " + clock + "</dc:date>\n"
    case NodeOpen(id, name) => NodeOpenText(id, name)
    case NodeAtt(att, name) => "\t\t<att name=\"" + att + "\" value=\"" + name + "\" type=\"string\"/>\n"
    case Connections(degree) => ConnectionsText(degree)
    case EdgeOpen(id, source, target) =>
      "\t<edge id=\"" + NatStr(id) + "\" label=\"" + NatStr(id) + "\" source=\"" + NatStr(source)
        + "\" target=\"" + NatStr(target) + "\" cy:directed=\"0\">\n"
  }

  /** The opening write of a node: its id and its label. */
  function NodeOpenText(id: nat, name: string): string
  {
    NODE_ID + NatStr(id) + NODE_LABEL + name + NODE_OPEN_END
  }

  /** The `nbrConnections` write of a node. */
  function ConnectionsText(degree: nat): string
  {
    CONNECTIONS_VALUE + NatStr(degree) + INTEGER_TYPE
  }

  /**
   * The id of a node opening reads back from its text: right after
   * `\t<node id="` come the id's digits, ended by the closing quote.
   */
  lemma NodeOpenId(id: nat, name: string)
    ensures var text, lo := NodeOpenText(id, name), |NODE_ID|;
      && lo + |NatStr(id)| < |text| && text[..lo] == NODE_ID
      && ParseNat(text[lo..lo + |NatStr(id)|]) == id && text[lo + |NatStr(id)|] == '"'
  {
    var post := NODE_LABEL + name + NODE_OPEN_END;
    assert NODE_LABEL[0] == '"';
    FieldReadsBack(NODE_ID, id, post);
    assert NodeOpenText(id, name) == NODE_ID + NatStr(id) + post;
  }

  /** The interaction count of a `nbrConnections` write reads back from its text the same way. */
  lemma ConnectionsCount(degree: nat)
    ensures var text, lo := ConnectionsText(degree), |CONNECTIONS_VALUE|;
      && lo + |NatStr(degree)| < |text| && text[..lo] == CONNECTIONS_VALUE
      && ParseNat(text[lo..lo + |NatStr(degree)|]) == degree && text[lo + |NatStr(degree)|] == '"'
  {
    assert INTEGER_TYPE[0] == '"';
    FieldReadsBack(CONNECTIONS_VALUE, degree, INTEGER_TYPE);
  }

  /** A number printed between a prefix and a quote-led suffix is read back from the digits before that quote. */
  lemma FieldReadsBack(pre: string, n: nat, post: string)
    requires |post| > 0 && post[0] == '"'
    ensures var text, lo := pre + NatStr(n) + post, |pre|;
      && lo + |NatStr(n)| < |text| && text[..lo] == pre
      && ParseNat(text[lo..lo + |NatStr(n)|]) == n && text[lo + |NatStr(n)|] == '"'
  {
    var digits := NatStr(n);
    var text := pre + digits + post;
    assert text[..|pre|] == pre;
    assert text[|pre|..|pre| + |digits|] == digits;
    assert text[|pre| + |digits|] == post[0];
    NatStrRoundTrip(n);
  }

  // ---------------------------------------------------------------------------
  // The reference document

  /** The 22 writes before the node blocks. */
  function XmlHeader(date: string, clock: string): (lines: seq<Line>)
    ensures |lines| == 22
  {
    [ Constant(XmlDeclaration), Constant(GraphOpen), Constant(MetadataOpen), Constant(RdfOpen),
      Constant(DescriptionOpen), Constant(DcType), Constant(DcDescription), Constant(DcIdentifier),
      DateStamp(date, clock), Constant(DcTitle), Constant(DcSource), Constant(DcFormat),
      Constant(DescriptionClose), Constant(RdfClose), Constant(AttClose), Constant(NetworkSharedName),
      Constant(NetworkName), Constant(NetworkSelected), Constant(AnnotationsOpen),
      Constant(AnnotationsItem), Constant(AttClose), Constant(Layout) ]
  }

  /** The writes for one node before its closing tag. */
  function NodeBody(id: nat, name: string, degree: nat): (lines: seq<Line>)
    ensures |lines| == 11
  {
    [ NodeOpen(id, name), NodeAtt("shared name", name), NodeAtt("name", name),
      Constant(Unselected), NodeAtt("canonicalName", name), Constant(Species),
      Constant(AliasesOpen), Constant(AliasesItem), Constant(InnerAttClose), Constant(SearchTerm),
      Connections(degree) ]
  }

  /** The twelve writes for one node. */
  function NodeBlock(id: nat, name: string, degree: nat): (lines: seq<Line>)
    ensures |lines| == 12
  {
    NodeBody(id, name, degree) + [Constant(NodeClose)]
  }

  /** The writes for one edge before its closing tag. */
  function EdgeBody(id: nat, source: nat, target: nat): (lines: seq<Line>)
    ensures |lines| == 12
  {
    [ EdgeOpen(id, source, target), Constant(EdgeSharedName), Constant(EdgeSharedInteraction),
      Constant(EdgeName), Constant(Unselected), Constant(EdgeInteraction), Constant(SentencesOpen),
      Constant(SentencesItem), Constant(InnerAttClose), Constant(PubEntryOpen),
      Constant(PubEntryItem), Constant(InnerAttClose) ]
  }

  /** The thirteen writes for one edge. */
  function EdgeBlock(id: nat, source: nat, target: nat): (lines: seq<Line>)
    ensures |lines| == 13
  {
    EdgeBody(id, source, target) + [Constant(EdgeClose)]
  }

  /**
   * A key without a `-`. Its `split("-")` has a single piece (SplitHasSecond),
   * so taking piece `[1]` raises IndexError.
   */
  predicate IsShortKey(key: string)
  {
    SEP !in key
  }

  /**
   * The node blocks of the first `k` nodes in visiting order `visit`: each
   * node has as id its position in the node set's order `nodes`, and its
   * interaction count.
   */
  function NodeSection(visit: seq<string>, nodes: seq<string>, halves: seq<string>, k: nat): (lines: seq<Line>)
    requires k <= |visit|
    ensures |lines| == 12 * k
  {
    if k == 0 then []
    else
      var n := visit[k - 1];
      NodeSection(visit, nodes, halves, k - 1) + NodeBlock(IndexOf(nodes, n), n, Count(halves, n))
  }

  /** The block for a key with id `id`: its source and target are the ids of its two halves. */
  function KeyEdge(key: string, nodes: seq<string>, id: nat): (lines: seq<Line>)
    requires !IsShortKey(key)
    ensures |lines| == 13
  {
    SplitHasSecond(key);
    var parts := Split(key);
    EdgeBlock(id, IndexOf(nodes, parts[0]), IndexOf(nodes, parts[1]))
  }

  /** The edge blocks of the first `k` keys: key j has id `|nodes| + 100 + j`. */
  function EdgeSection(keys: seq<string>, nodes: seq<string>, k: nat): (lines: seq<Line>)
    requires k <= |keys|
    requires forall i :: 0 <= i < k ==> !IsShortKey(keys[i])
    ensures |lines| == 13 * k
  {
    if k == 0 then []
    else EdgeSection(keys, nodes, k - 1) + KeyEdge(keys[k - 1], nodes, |nodes| + 100 + (k - 1))
  }

  /** Position of the first key without a second half, or `|keys|` when there is none. */
  function FirstShortKey(keys: seq<string>): (r: nat)
    ensures r <= |keys|
    ensures forall i :: 0 <= i < r ==> !IsShortKey(keys[i])
    ensures r < |keys| ==> IsShortKey(keys[r])
  {
    if |keys| == 0 then 0
    else if IsShortKey(keys[0]) then 0
    else 1 + FirstShortKey(keys[1..])
  }

  /** A key list in which every key has a second half. */
  predicate AllPaired(keys: seq<string>)
  {
    forall i :: 0 <= i < |keys| ==> !IsShortKey(keys[i])
  }

  /** The writes of `write_network_xml` when every key has a second half. */
  function XmlLines(keys: seq<string>, nodes: seq<string>, visit: seq<string>, date: string, clock: string)
    : (doc: seq<Line>)
    requires AllPaired(keys)
    ensures |doc| == 22 + 12 * |visit| + 13 * |keys| + 1
  {
    XmlHeader(date, clock) + NodeSection(visit, nodes, Halves(keys), |visit|)
      + EdgeSection(keys, nodes, |keys|) + [Constant(GraphClose)]
  }

  /**
   * What `write_network_xml` writes for the keys of `correl` when the node
   * set is enumerated as `nodes` and `nodeData` is then visited in the order
   * `visit`: the header, one block per node, one block per key and the
   * closing tag; or the IndexError of the first short key.
   */
  function XmlDocument(keys: seq<string>, nodes: seq<string>, visit: seq<string>, date: string, clock: string)
    : Result<seq<Line>, Error>
  {
    var bad := FirstShortKey(keys);
    if bad < |keys| then Failure(IndexError(keys[bad])) else Success(XmlLines(keys, nodes, visit, date, clock))
  }

  /** The edge loop's outcome: every key's block, or the IndexError of the first short key. */
  function EdgeDocument(keys: seq<string>, nodes: seq<string>): Result<seq<Line>, Error>
  {
    var bad := FirstShortKey(keys);
    if bad < |keys| then Failure(IndexError(keys[bad])) else Success(EdgeSection(keys, nodes, |keys|))
  }

  lemma HalfIsNode(keys: seq<string>, j: nat, p: nat)
    requires j < |keys| && p < |Split(keys[j])|
    ensures Split(keys[j])[p] in NodeSet(keys)
  {
    NodeSetMembers(keys, Split(keys[j])[p]);
  }

  // ---------------------------------------------------------------------------
  // write_network_xml

  /**
   * The loop over `nodeData.items()` (lines 123-135): one block per node, in
   * the dict's iteration order `visit`, each with the id `nodeData` holds.
   */
  method WriteNodes(nodeData: Dict<string, nat>, counts: Dict<string, nat>, visit: seq<string>,
                    ghost nodes: seq<string>, ghost halves: seq<string>)
    returns (lines: seq<Line>)
    requires Elems(visit) <= nodeData.entries.Keys
    requires forall k :: k in nodeData.entries ==> nodeData.entries[k] == IndexOf(nodes, k)
    requires Elems(visit) <= counts.entries.Keys
    requires forall n :: n in counts.entries ==> counts.entries[n] == Count(halves, n)
    ensures lines == NodeSection(visit, nodes, halves, |visit|)
  {
    lines := [];
    for i := 0 to |visit|
      invariant lines == NodeSection(visit, nodes, halves, i)
    {
      var key := visit[i];
      assert key in Elems(visit);
      lines := lines + NodeBlock(nodeData.entries[key], key, counts.entries[key]);
    }
  }

  /**
   * The loop over `correl.items()` (lines 140-153): one block per key, or the
   * IndexError of the first key without a second half.
   */
  method WriteEdges(keys: seq<string>, edgeId: Dict<string, nat>, nodeData: Dict<string, nat>,
                    ghost nodes: seq<string>)
    returns (r: Result<seq<Line>, Error>)
    requires Elems(keys) <= edgeId.entries.Keys
    requires forall j :: 0 <= j < |keys| ==> edgeId.entries[keys[j]] == |nodes| + 100 + j
    requires NodeSet(keys) <= nodeData.entries.Keys
    requires forall k :: k in nodeData.entries ==> nodeData.entries[k] == IndexOf(nodes, k)
    ensures r == EdgeDocument(keys, nodes)
  {
    var lines := [];
    for j := 0 to |keys|
      invariant j <= FirstShortKey(keys)
      invariant forall i :: 0 <= i < j ==> !IsShortKey(keys[i])
      invariant lines == EdgeSection(keys, nodes, j)
    {
      var key := keys[j];
      var parts := Split(key);
      SplitHasSecond(key);
      if |parts| < 2 {
        ShortKeyIsFirst(keys, j);
        r := Failure(IndexError(key));
        return;
      }
      EdgeLookupsDefined(keys, edgeId, nodeData, j);
      var id, source, target := edgeId.entries[key], nodeData.entries[parts[0]], nodeData.entries[parts[1]];
      EdgeStep(keys, nodes, j, id, source, target);
      lines := lines + EdgeBlock(id, source, target);
    }
    r := Success(lines);
  }

  /** A short key reached with no short key before it is the first short key. */
  lemma ShortKeyIsFirst(keys: seq<string>, j: nat)
    requires j < |keys| && j <= FirstShortKey(keys) && IsShortKey(keys[j])
    ensures FirstShortKey(keys) == j
  {
  }

  /**
   * One turn of the edge loop: the block of a key with a second half, written
   * with the key's id and the ids of its halves, extends the edge section by one key.
   */
  lemma EdgeStep(keys: seq<string>, nodes: seq<string>, j: nat, id: nat, source: nat, target: nat)
    requires j < |keys| && !IsShortKey(keys[j]) && forall i :: 0 <= i < j ==> !IsShortKey(keys[i])
    requires id == |nodes| + 100 + j
    requires (SplitHasSecond(keys[j]);
      source == IndexOf(nodes, Split(keys[j])[0]) && target == IndexOf(nodes, Split(keys[j])[1]))
    ensures EdgeSection(keys, nodes, j + 1) == EdgeSection(keys, nodes, j) + EdgeBlock(id, source, target)
  {
    EdgeSectionSnoc(keys, nodes, j);
    KeyEdgeBlock(keys[j], nodes, id, source, target);
  }

  /** The edge section of `j + 1` keys is that of `j` keys followed by key j's block. */
  lemma EdgeSectionSnoc(keys: seq<string>, nodes: seq<string>, j: nat)
    requires j < |keys| && !IsShortKey(keys[j]) && forall i :: 0 <= i < j ==> !IsShortKey(keys[i])
    ensures EdgeSection(keys, nodes, j + 1) == EdgeSection(keys, nodes, j) + KeyEdge(keys[j], nodes, |nodes| + 100 + j)
  {
  }

  /** A key's block is the edge block of its id and the ids of its two halves. */
  lemma KeyEdgeBlock(key: string, nodes: seq<string>, id: nat, source: nat, target: nat)
    requires !IsShortKey(key)
    requires (SplitHasSecond(key);
      source == IndexOf(nodes, Split(key)[0]) && target == IndexOf(nodes, Split(key)[1]))
    ensures KeyEdge(key, nodes, id) == EdgeBlock(id, source, target)
  {
  }

  /** The halves of a key with a second half are all looked-up nodes. */
  lemma EdgeLookupsDefined(keys: seq<string>, edgeId: Dict<string, nat>, nodeData: Dict<string, nat>, j: nat)
    requires Elems(keys) <= edgeId.entries.Keys
    requires NodeSet(keys) <= nodeData.entries.Keys
    requires j < |keys| && !IsShortKey(keys[j])
    ensures keys[j] in edgeId.entries
    ensures (SplitHasSecond(keys[j]);
      Split(keys[j])[0] in nodeData.entries && Split(keys[j])[1] in nodeData.entries)
  {
    assert keys[j] in Elems(keys);
    SplitHasSecond(keys[j]);
    HalfIsNode(keys, j, 0);
    HalfIsNode(keys, j, 1);
  }

  /**
   * `write_network_xml` up to the closing `</graph>` (the plots that follow
   * it are not modelled). `totalNode` is the iteration order of the node set
   * and `visit` that of the dict `nodeData` built from it: the same nodes,
   * in an order the hash table chooses.
   */
  method WriteNetworkXml<V>(correl: Dict<string, V>, totalNode: seq<string>, visit: seq<string>,
                            date: string, clock: string)
    returns (r: Result<seq<Line>, Error>)
    requires correl.Valid()
    requires NoDup(totalNode) && Elems(totalNode) == NodeSet(correl.order)
    requires NoDup(visit) && Elems(visit) == Elems(totalNode)
    ensures r == XmlDocument(correl.order, totalNode, visit, date, clock)
  {
    var keys := correl.order;
    var header := XmlHeader(date, clock);
    var nodeData := FillCountId(totalNode);
    var counts := CountInteractions(correl, totalNode);
    var nodeLines := WriteNodes(nodeData, counts, visit, totalNode, Halves(keys));
    var edgeId := EdgeCountId(correl, totalNode);
    var edges := WriteEdges(keys, edgeId, nodeData, totalNode);
    if edges.Failure? {
      return Failure(edges.error);
    }
    r := Success(header + nodeLines + edges.value + [Constant(GraphClose)]);
  }

  // ---------------------------------------------------------------------------
  // Properties of the document

  /** The document fails exactly when some key has no second half, naming the first such key. */
  lemma XmlFailsOnShortKey(keys: seq<string>, nodes: seq<string>, visit: seq<string>, date: string, clock: string)
    ensures XmlDocument(keys, nodes, visit, date, clock).Failure? <==> !AllPaired(keys)
    ensures AllPaired(keys) ==>
      XmlDocument(keys, nodes, visit, date, clock).value == XmlLines(keys, nodes, visit, date, clock)
    ensures XmlDocument(keys, nodes, visit, date, clock).Failure? ==>
      exists i :: 0 <= i < |keys| && IsShortKey(keys[i])
        && (forall j :: 0 <= j < i ==> !IsShortKey(keys[j]))
        && XmlDocument(keys, nodes, visit, date, clock).error == IndexError(keys[i])
  {
  }

  /** The i-th visited node's twelve writes sit at offset `12 * i` of the node section. */
  lemma {:induction false} NodeSectionAt(visit: seq<string>, nodes: seq<string>, halves: seq<string>, k: nat, i: nat)
    requires i < k <= |visit|
    ensures NodeSection(visit, nodes, halves, k)[12 * i..12 * i + 12]
      == NodeBlock(IndexOf(nodes, visit[i]), visit[i], Count(halves, visit[i]))
  {
    var n := visit[k - 1];
    var prev := NodeSection(visit, nodes, halves, k - 1);
    var block := NodeBlock(IndexOf(nodes, n), n, Count(halves, n));
    assert NodeSection(visit, nodes, halves, k) == prev + block;
    if i < k - 1 {
      NodeSectionAt(visit, nodes, halves, k - 1, i);
      SliceOfAppendLeft(prev, block, 12 * i, 12 * i + 12);
    } else {
      SliceOfAppendRight(prev, block);
    }
  }

  /** Key j's thirteen writes sit at offset `13 * j` of the edge section. */
  lemma {:induction false} EdgeSectionAt(keys: seq<string>, nodes: seq<string>, k: nat, j: nat)
    requires j < k <= |keys|
    requires forall i :: 0 <= i < k ==> !IsShortKey(keys[i])
    ensures EdgeSection(keys, nodes, k)[13 * j..13 * j + 13] == KeyEdge(keys[j], nodes, |nodes| + 100 + j)
  {
    if j < k - 1 {
      EdgeSectionAt(keys, nodes, k - 1, j);
      EdgeSectionEarlier(keys, nodes, k, j);
    } else {
      EdgeSectionLast(keys, nodes, k);
    }
  }

  /** Appending block k - 1 leaves the earlier blocks where they were. */
  lemma EdgeSectionEarlier(keys: seq<string>, nodes: seq<string>, k: nat, j: nat)
    requires j < k - 1 && k <= |keys|
    requires forall i :: 0 <= i < k ==> !IsShortKey(keys[i])
    ensures EdgeSection(keys, nodes, k)[13 * j..13 * j + 13] == EdgeSection(keys, nodes, k - 1)[13 * j..13 * j + 13]
  {
    var prev := EdgeSection(keys, nodes, k - 1);
    var block := KeyEdge(keys[k - 1], nodes, |nodes| + 100 + (k - 1));
    EdgeSectionSnoc(keys, nodes, k - 1);
    SliceOfAppendLeft(prev, block, 13 * j, 13 * j + 13);
  }

  /** The last block of the first k keys is the block of key k - 1. */
  lemma EdgeSectionLast(keys: seq<string>, nodes: seq<string>, k: nat)
    requires 0 < k <= |keys|
    requires forall i :: 0 <= i < k ==> !IsShortKey(keys[i])
    ensures EdgeSection(keys, nodes, k)[13 * (k - 1)..13 * k] == KeyEdge(keys[k - 1], nodes, |nodes| + 100 + (k - 1))
  {
    var prev := EdgeSection(keys, nodes, k - 1);
    var block := KeyEdge(keys[k - 1], nodes, |nodes| + 100 + (k - 1));
    EdgeSectionSnoc(keys, nodes, k - 1);
    SliceOfAppendRight(prev, block);
  }

  /**
   * The i-th visited node is written with its own label, with as id its
   * position in the node set's order, and with `nbrConnections` equal to
   * its interaction count.
   */
  lemma XmlNodeBlock(keys: seq<string>, nodes: seq<string>, visit: seq<string>, date: string, clock: string, i: nat)
    requires AllPaired(keys)
    requires i < |visit| && visit[i] in nodes
    ensures var doc := XmlLines(keys, nodes, visit, date, clock);
      var id := IndexOf(nodes, visit[i]);
      && id < |nodes| && nodes[id] == visit[i]
      && doc[22 + 12 * i] == NodeOpen(id, visit[i])
      && doc[22 + 12 * i + 10] == Connections(Count(Halves(keys), visit[i]))
      && doc[22 + 12 * i + 11] == Constant(NodeClose)
  {
    NodeSectionLines(visit, nodes, Halves(keys), i);
    XmlNodeLines(keys, nodes, visit, date, clock, i);
  }

  /** The opening, count and closing writes of the i-th node block, read in the document. */
  lemma XmlNodeLines(keys: seq<string>, nodes: seq<string>, visit: seq<string>, date: string, clock: string, i: nat)
    requires AllPaired(keys)
    requires i < |visit|
    ensures var doc := XmlLines(keys, nodes, visit, date, clock);
      var section := NodeSection(visit, nodes, Halves(keys), |visit|);
      && doc[22 + 12 * i] == section[12 * i]
      && doc[22 + 12 * i + 10] == section[12 * i + 10]
      && doc[22 + 12 * i + 11] == section[12 * i + 11]
  {
    XmlNodeLine(keys, nodes, visit, date, clock, 12 * i);
    XmlNodeLine(keys, nodes, visit, date, clock, 12 * i + 10);
    XmlNodeLine(keys, nodes, visit, date, clock, 12 * i + 11);
  }

  /** The opening, count and closing writes of the i-th visited node in the node section. */
  lemma NodeSectionLines(visit: seq<string>, nodes: seq<string>, halves: seq<string>, i: nat)
    requires i < |visit|
    ensures var section := NodeSection(visit, nodes, halves, |visit|);
      var id := IndexOf(nodes, visit[i]);
      && section[12 * i] == NodeOpen(id, visit[i])
      && section[12 * i + 10] == Connections(Count(halves, visit[i]))
      && section[12 * i + 11] == Constant(NodeClose)
  {
    var id, degree := IndexOf(nodes, visit[i]), Count(halves, visit[i]);
    NodeSectionAt(visit, nodes, halves, |visit|, i);
    BlockLines(NodeSection(visit, nodes, halves, |visit|), 12 * i, NodeBlock(id, visit[i], degree));
  }

  /** A block found at offset `lo` gives the writes from `lo` on, one by one. */
  lemma BlockLines(lines: seq<Line>, lo: nat, block: seq<Line>)
    requires lo + |block| <= |lines| && lines[lo..lo + |block|] == block
    ensures forall k :: 0 <= k < |block| ==> lines[lo + k] == block[k]
  {
    forall k | 0 <= k < |block|
      ensures lines[lo + k] == block[k]
    {
      assert lines[lo..lo + |block|][k] == lines[lo + k];
    }
  }

  /** Write `p` of the node section is write `22 + p` of the document. */
  lemma XmlNodeLine(keys: seq<string>, nodes: seq<string>, visit: seq<string>, date: string, clock: string, p: nat)
    requires AllPaired(keys)
    requires p < 12 * |visit|
    ensures XmlLines(keys, nodes, visit, date, clock)[22 + p] == NodeSection(visit, nodes, Halves(keys), |visit|)[p]
  {
    var header := XmlHeader(date, clock);
    var section := NodeSection(visit, nodes, Halves(keys), |visit|);
    var rest := EdgeSection(keys, nodes, |keys|);
    assert XmlLines(keys, nodes, visit, date, clock) == header + section + rest + [Constant(GraphClose)];
    assert (header + section)[22 + p] == section[p];
  }

  /**
   * Key j is written as an edge with id `|nodes| + 100 + j`, whose source and
   * target are the node ids of the key's first and second halves.
   */
  lemma XmlEdgeBlock(keys: seq<string>, nodes: seq<string>, visit: seq<string>, date: string, clock: string, j: nat)
    requires AllPaired(keys)
    requires Elems(nodes) == NodeSet(keys)
    requires j < |keys|
    ensures var doc := XmlLines(keys, nodes, visit, date, clock);
      var pos := 22 + 12 * |visit| + 13 * j;
      doc[pos + 12] == Constant(EdgeClose)
      && exists source: nat, target: nat ::
        (source < |nodes| && target < |nodes|
         && (SplitHasSecond(keys[j]); nodes[source] == Split(keys[j])[0] && nodes[target] == Split(keys[j])[1])
         && doc[pos] == EdgeOpen(|nodes| + 100 + j, source, target))
  {
    var parts := Split(keys[j]);
    SplitHasSecond(keys[j]);
    HalfIsNode(keys, j, 0);
    HalfIsNode(keys, j, 1);
    var source, target := IndexOf(nodes, parts[0]), IndexOf(nodes, parts[1]);
    var edges := EdgeSection(keys, nodes, |keys|);
    var block := EdgeBlock(|nodes| + 100 + j, source, target);
    EdgeSectionAt(keys, nodes, |keys|, j);
    KeyEdgeBlock(keys[j], nodes, |nodes| + 100 + j, source, target);
    assert edges[13 * j] == block[0] && edges[13 * j + 12] == block[12] by {
      assert edges[13 * j..13 * j + 13] == block;
    }
    assert source < |nodes| && target < |nodes|;
  }

  // ---------------------------------------------------------------------------
  // Reading the counts back

  lemma NodeBlockCloses(id: nat, name: string, degree: nat)
    ensures Count(NodeBlock(id, name, degree), Constant(NodeClose)) == 1
    ensures Count(NodeBlock(id, name, degree), Constant(EdgeClose)) == 0
  {
    var body := NodeBody(id, name, degree);
    assert Constant(NodeClose) !in body && Constant(EdgeClose) !in body;
    CountPositive(body, Constant(NodeClose));
    CountPositive(body, Constant(EdgeClose));
    CountAppend(body, [Constant(NodeClose)], Constant(NodeClose));
    CountAppend(body, [Constant(NodeClose)], Constant(EdgeClose));
  }

  lemma EdgeBlockCloses(id: nat, source: nat, target: nat)
    ensures Count(EdgeBlock(id, source, target), Constant(EdgeClose)) == 1
    ensures Count(EdgeBlock(id, source, target), Constant(NodeClose)) == 0
  {
    var body := EdgeBody(id, source, target);
    assert Constant(NodeClose) !in body && Constant(EdgeClose) !in body;
    CountPositive(body, Constant(NodeClose));
    CountPositive(body, Constant(EdgeClose));
    CountAppend(body, [Constant(EdgeClose)], Constant(NodeClose));
    CountAppend(body, [Constant(EdgeClose)], Constant(EdgeClose));
  }

  lemma {:induction false} NodeSectionCloses(visit: seq<string>, nodes: seq<string>, halves: seq<string>, k: nat)
    requires k <= |visit|
    ensures Count(NodeSection(visit, nodes, halves, k), Constant(NodeClose)) == k
    ensures Count(NodeSection(visit, nodes, halves, k), Constant(EdgeClose)) == 0
  {
    if k > 0 {
      NodeSectionCloses(visit, nodes, halves, k - 1);
      var n := visit[k - 1];
      var prev := NodeSection(visit, nodes, halves, k - 1);
      var degree := Count(halves, n);
      var block := NodeBlock(IndexOf(nodes, n), n, degree);
      assert NodeSection(visit, nodes, halves, k) == prev + block;
      NodeBlockCloses(IndexOf(nodes, n), n, degree);
      CountAppend(prev, block, Constant(NodeClose));
      CountAppend(prev, block, Constant(EdgeClose));
    }
  }

  lemma {:induction false} EdgeSectionCloses(keys: seq<string>, nodes: seq<string>, k: nat)
    requires k <= |keys|
    requires forall i :: 0 <= i < k ==> !IsShortKey(keys[i])
    ensures Count(EdgeSection(keys, nodes, k), Constant(EdgeClose)) == k
    ensures Count(EdgeSection(keys, nodes, k), Constant(NodeClose)) == 0
  {
    if k > 0 {
      EdgeSectionCloses(keys, nodes, k - 1);
      var prev := EdgeSection(keys, nodes, k - 1);
      var parts := Split(keys[k - 1]);
      SplitHasSecond(keys[k - 1]);
      var id, source, target := |nodes| + 100 + (k - 1), IndexOf(nodes, parts[0]), IndexOf(nodes, parts[1]);
      var block := KeyEdge(keys[k - 1], nodes, id);
      assert block == EdgeBlock(id, source, target);
      EdgeBlockCloses(id, source, target);
      CountAppend(prev, block, Constant(NodeClose));
      CountAppend(prev, block, Constant(EdgeClose));
    }
  }

  /** The header holds neither closing tag. */
  lemma HeaderCloses(date: string, clock: string)
    ensures Count(XmlHeader(date, clock), Constant(NodeClose)) == 0
    ensures Count(XmlHeader(date, clock), Constant(EdgeClose)) == 0
  {
    CountPositive(XmlHeader(date, clock), Constant(NodeClose));
    CountPositive(XmlHeader(date, clock), Constant(EdgeClose));
  }

  /**
   * The document has one `</node>` write per node and one `</edge>` write
   * per correlation key.
   */
  lemma XmlCloseCounts(keys: seq<string>, nodes: seq<string>, visit: seq<string>, date: string, clock: string)
    requires AllPaired(keys)
    ensures Count(XmlLines(keys, nodes, visit, date, clock), Constant(NodeClose)) == |visit|
    ensures Count(XmlLines(keys, nodes, visit, date, clock), Constant(EdgeClose)) == |keys|
  {
    var header := XmlHeader(date, clock);
    var ns := NodeSection(visit, nodes, Halves(keys), |visit|);
    var es := EdgeSection(keys, nodes, |keys|);
    var footer := [Constant(GraphClose)];
    NodeSectionCloses(visit, nodes, Halves(keys), |visit|);
    EdgeSectionCloses(keys, nodes, |keys|);
    HeaderCloses(date, clock);
    CountPositive(footer, Constant(NodeClose));
    CountPositive(footer, Constant(EdgeClose));
    CountAppend4(header, ns, es, footer, Constant(NodeClose));
    CountAppend4(header, ns, es, footer, Constant(EdgeClose));
  }

  // ---------------------------------------------------------------------------
  // write_network_sif

  /** One edge-list row: the first and second halves of the key around `\tpp\t`. */
  function SifLine(key: string): string
    requires !IsShortKey(key)
  {
    SplitHasSecond(key);
    Split(key)[0] + "\tpp\t" + Split(key)[1] + "\n"
  }

  /**
   * `write_network_sif`: one row per key in iteration order, or the
   * IndexError of the first key without a second half.
   */
  method WriteNetworkSif<V>(correl: Dict<string, V>) returns (r: Result<seq<string>, Error>)
    ensures r.Failure? <==> exists i :: 0 <= i < |correl.order| && IsShortKey(correl.order[i])
    ensures r.Failure? ==> r.error == IndexError(correl.order[FirstShortKey(correl.order)])
    ensures r.Success? ==> |r.value| == |correl.order|
    ensures r.Success? ==> forall j :: 0 <= j < |correl.order| ==> r.value[j] == SifLine(correl.order[j])
  {
    var keys := correl.order;
    var out: seq<string> := [];
    for j := 0 to |keys|
      invariant |out| == j
      invariant forall i :: 0 <= i < j ==> !IsShortKey(keys[i]) && out[i] == SifLine(keys[i])
    {
      var key := keys[j];
      var parts := Split(key);
      SplitHasSecond(key);
      if |parts| < 2 {
        assert FirstShortKey(keys) == j;
        r := Failure(IndexError(key));
        return;
      }
      out := out + [parts[0] + "\tpp\t" + parts[1] + "\n"];
    }
    r := Success(out);
  }

  /** For a key built as `a + "-" + b` from separator-free labels the row is `a\tpp\tb\n`. */
  lemma SifLineOfPair(a: string, b: string)
    requires SEP !in a && SEP !in b
    ensures !IsShortKey(a + "-" + b)
    ensures SifLine(a + "-" + b) == a + "\tpp\t" + b + "\n"
  {
    PairKeySplit(a, b);
  }

  /** The row for the correlation key `P1-P2`. */
  lemma SifExample()
    ensures SifLine("P1-P2") == "P1\tpp\tP2\n"
  {
    SifLineOfPair("P1", "P2");
    assert "P1" + "-" + "P2" == "P1-P2";
  }
}

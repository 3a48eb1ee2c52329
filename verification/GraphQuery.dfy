/** The reference graph of a project (internal/docgraph/graph_query.go): targets are
    resolved, degrees are counted through shared nodes, the nodes are ranked and capped,
    and the edges are filtered in place. */
module GraphQuery {
  import opened Outcomes

  datatype QueryError = EmptyProject | DocumentsUnreadable | ReferencesUnreadable

  datatype Document = Document(id: string, title: string, kind: string, status: string, modified: string)

  datatype Ref = Ref(source: string, target: string, linkType: string)

  /** `index` is the number at the end of the edge's wire id. */
  datatype Edge = Edge(index: nat, source: string, target: string, kind: string, broken: bool)

  datatype Node = Node(id: string, project: string, slug: string, title: string, kind: string, status: string,
                       degreeIn: nat, degreeOut: nat, modified: string)

  datatype Graph = Graph(nodes: seq<Node>, edges: seq<Edge>, truncated: bool, totalNodes: nat, totalEdges: nat)

  /** Go's path and strings functions, which the graph's properties do not depend on:
      `locate(source, target)` is Clean(Join(Dir(source), target)). */
  datatype Paths = Paths(base: string -> string, locate: (string, string) -> string, trimSpace: string -> string,
                         lower: string -> string, slugify: string -> string)

  // ---- Resolving ------------------------------------------------------------

  predicate HasSuffix(s: string, t: string) {
    |t| <= |s| && s[|s| - |t|..] == t
  }

  function TrimMd(s: string): string {
    if HasSuffix(s, ".md") then s[..|s| - 3] else s
  }

  predicate LooksLikePath(p: Paths, s: string) {
    '/' in s || HasSuffix(p.lower(s), ".md") || HasSuffix(p.lower(s), ".mdx")
  }

  function WireKind(linkType: string): string {
    if linkType == "md-link" then "mdlink"
    else if linkType == "wikilink" then "wikilink"
    else if linkType == "frontmatter" then "frontmatter"
    else if linkType == "vedox-scheme" then "vedox_ref"
    else linkType
  }

  /** The document a reference points at, or a made-up id and true. */
  function ResolveTarget(p: Paths, r: Ref, ids: set<string>, slugs: map<string, string>): (string, bool) {
    var raw := p.trimSpace(r.target);
    var located := p.locate(r.source, raw);
    var slug := p.slugify(raw);
    if raw == "" then ("", true)
    else if LooksLikePath(p, raw) && located in ids then (located, false)
    else if LooksLikePath(p, raw) && !HasSuffix(located, ".md") && located + ".md" in ids then (located + ".md", false)
    else if raw in slugs then (slugs[raw], false)
    else if slug != raw && slug in slugs then (slugs[slug], false)
    else if LooksLikePath(p, raw) then (located, true)
    else (raw, true)
  }

  function Ids(docs: seq<Document>): set<string> {
    set i | 0 <= i < |docs| :: docs[i].id
  }

  function BaseOf(p: Paths, id: string): string {
    p.base(TrimMd(id))
  }

  /** The first document of each base name. */
  function Slugs(p: Paths, docs: seq<Document>): (m: map<string, string>)
    ensures forall s :: s in m ==> m[s] in Ids(docs) && BaseOf(p, m[s]) == s
  {
    if docs == [] then map[]
    else
      var d := docs[|docs| - 1];
      var m := Slugs(p, docs[..|docs| - 1]);
      var base := BaseOf(p, d.id);
      assert forall i :: 0 <= i < |docs| - 1 ==> docs[i] == docs[..|docs| - 1][i];
      if base == "" || base == "." || base in m then m else m[base := d.id]
  }

  function EdgeAt(p: Paths, docs: seq<Document>, refs: seq<Ref>, i: nat): Edge
    requires i < |refs|
  {
    var (target, broken) := ResolveTarget(p, refs[i], Ids(docs), Slugs(p, docs));
    Edge(i, refs[i].source, target, WireKind(refs[i].linkType), broken)
  }

  function Edges(p: Paths, docs: seq<Document>, refs: seq<Ref>): seq<Edge> {
    seq(|refs|, i requires 0 <= i < |refs| => EdgeAt(p, docs, refs, i))
  }

  /** Ids a reference may stand for, in the order in which they are tried: the path it
      names, that path with the extension added, and the documents of two slugs. */
  function Candidates(p: Paths, r: Ref, slugs: map<string, string>): seq<string> {
    var raw := p.trimSpace(r.target);
    var located, slug := p.locate(r.source, raw), p.slugify(raw);
    (if '/' in raw || HasSuffix(p.lower(raw), ".md") || HasSuffix(p.lower(raw), ".mdx")
     then if HasSuffix(located, ".md") then [located] else [located, located + ".md"] else [])
    + (if raw in slugs then [slugs[raw]] else [])
    + (if slug in slugs then [slugs[slug]] else [])
  }

  ghost predicate IsFirstKnown(id: string, candidates: seq<string>, ids: set<string>) {
    exists k :: 0 <= k < |candidates| && candidates[k] == id && id in ids
             && forall i :: 0 <= i < k ==> candidates[i] !in ids
  }

  /** A reference with any text resolves to the first candidate that is a document, and
      is broken exactly if none is. */
  lemma ResolvesToFirstKnown(p: Paths, docs: seq<Document>, r: Ref)
    requires p.trimSpace(r.target) != ""
    ensures var (target, broken) := ResolveTarget(p, r, Ids(docs), Slugs(p, docs));
      var candidates := Candidates(p, r, Slugs(p, docs));
      && (!broken ==> IsFirstKnown(target, candidates, Ids(docs)))
      && (broken <==> forall i :: 0 <= i < |candidates| ==> candidates[i] !in Ids(docs))
  {
    var ids, slugs := Ids(docs), Slugs(p, docs);
    var (target, broken) := ResolveTarget(p, r, ids, slugs);
    var candidates := Candidates(p, r, slugs);
    if !broken {
      var k := if candidates[0] in ids then 0 else if candidates[1] in ids then 1
               else if candidates[2] in ids then 2 else 3;
      assert candidates[k] == target;
    }
  }

  /** A reference counts as resolved exactly when its target is a document, except that a
      document whose id is not a path can share its id with a target made up from a
      reference to that very string. */
  lemma BrokenMeansUnknown(p: Paths, docs: seq<Document>, r: Ref)
    ensures var (target, broken) := ResolveTarget(p, r, Ids(docs), Slugs(p, docs));
      var raw := p.trimSpace(r.target);
      && (!broken ==> target in Ids(docs))
      && (broken && target in Ids(docs) <==>
          raw in Ids(docs) && broken && (raw == "" || !LooksLikePath(p, raw)))
  {
  }

  // ---- Degrees --------------------------------------------------------------

  function OutDegree(edges: seq<Edge>, id: string): nat {
    if edges == [] then 0
    else OutDegree(edges[..|edges| - 1], id) + if edges[|edges| - 1].source == id then 1 else 0
  }

  function InDegree(edges: seq<Edge>, id: string): nat {
    if edges == [] then 0
    else InDegree(edges[..|edges| - 1], id) + if edges[|edges| - 1].target == id then 1 else 0
  }

  function MissingIds(edges: seq<Edge>): set<string> {
    set i | 0 <= i < |edges| && edges[i].broken :: edges[i].target
  }

  function SlugIn(project: string, id: string): string {
    if project + "/" <= id then id[|project| + 1..] else id
  }

  function KnownNode(project: string, d: Document, edges: seq<Edge>): Node {
    Node(d.id, project, SlugIn(project, d.id), d.title, d.kind, d.status,
         InDegree(edges, d.id), OutDegree(edges, d.id), d.modified)
  }

  function MissingNode(p: Paths, project: string, id: string): Node {
    Node(id, project, BaseOf(p, id), BaseOf(p, id), "missing", "broken", 0, 0, "")
  }

  ghost function KnownNodes(project: string, docs: seq<Document>, edges: seq<Edge>): set<Node> {
    set i | 0 <= i < |docs| :: KnownNode(project, docs[i], edges)
  }

  ghost function MissingNodes(p: Paths, project: string, edges: seq<Edge>): set<Node> {
    set id | id in MissingIds(edges) :: MissingNode(p, project, id)
  }

  /** Every node of the graph, each once. */
  ghost function AllNodes(p: Paths, project: string, docs: seq<Document>, edges: seq<Edge>): multiset<Node> {
    multiset(KnownNodes(project, docs, edges)) + multiset(MissingNodes(p, project, edges))
  }

  /** documents.id is the primary key. */
  ghost predicate DistinctIds(docs: seq<Document>) {
    forall i, j :: 0 <= i < j < |docs| ==> docs[i].id != docs[j].id
  }

  // ---- Ranking --------------------------------------------------------------

  /** Go's string order. */
  predicate Less(a: string, b: string) {
    b != "" && (a == "" || a[0] < b[0] || (a[0] == b[0] && Less(a[1..], b[1..])))
  }

  predicate Outranks(a: Node, b: Node) {
    var sa, sb := a.degreeIn + a.degreeOut, b.degreeIn + b.degreeOut;
    if sa != sb then sa > sb
    else if a.modified != b.modified then Less(b.modified, a.modified)
    else Less(a.id, b.id)
  }

  ghost predicate IsRanked(nodes: seq<Node>) {
    forall i, j :: 0 <= i < j < |nodes| ==> !Outranks(nodes[j], nodes[i])
  }

  lemma {:induction false} LessIsTotal(a: string, b: string)
    ensures !(Less(a, b) && Less(b, a))
    ensures a == b <==> !Less(a, b) && !Less(b, a)
  {
    if a != "" && b != "" {
      LessIsTotal(a[1..], b[1..]);
      assert a == [a[0]] + a[1..] && b == [b[0]] + b[1..];
    }
  }

  lemma {:induction false} LessIsTransitive(a: string, b: string, c: string)
    requires Less(a, b) && Less(b, c)
    ensures Less(a, c)
  {
    if a != "" && a[0] == b[0] == c[0] {
      LessIsTransitive(a[1..], b[1..], c[1..]);
    }
  }

  lemma LessOrSame(a: string, b: string, c: string)
    requires !Less(b, a) && !Less(c, b)
    ensures !Less(c, a) && (a == c ==> a == b)
  {
    LessIsTotal(a, b);
    LessIsTotal(b, c);
    LessIsTotal(a, c);
    if a != b && b != c {
      LessIsTransitive(a, b, c);
    }
  }

  /** The comparison that sort.Slice is given is a strict weak order... */
  lemma RankingIsTransitive(a: Node, b: Node, c: Node)
    requires !Outranks(b, a) && !Outranks(c, b)
    ensures !Outranks(c, a)
  {
    LessIsTotal(a.modified, b.modified);
    LessIsTotal(b.modified, c.modified);
    LessIsTotal(a.modified, c.modified);
    if !Less(a.modified, b.modified) && !Less(b.modified, c.modified) {
      LessOrSame(c.modified, b.modified, a.modified);
    }
    if !Less(b.id, a.id) && !Less(c.id, b.id) {
      LessOrSame(a.id, b.id, c.id);
    }
  }

  /** ... that leaves no ties between different ids. */
  lemma RankingIsTotal(a: Node, b: Node)
    ensures !(Outranks(a, b) && Outranks(b, a))
    ensures a.id != b.id ==> Outranks(a, b) || Outranks(b, a)
  {
    LessIsTotal(a.modified, b.modified);
    LessIsTotal(a.id, b.id);
  }

  // ---- Building the graph ---------------------------------------------------

  /** A document's node while its degrees are being counted. */
  class GraphNode {
    const project: string
    const doc: Document
    var degreeIn: nat
    var degreeOut: nat

    constructor (project: string, doc: Document)
      ensures this.project == project && this.doc == doc && degreeIn == 0 && degreeOut == 0
    {
      this.project, this.doc, degreeIn, degreeOut := project, doc, 0, 0;
    }

    function Value(): Node
      reads this
    {
      Node(doc.id, project, SlugIn(project, doc.id), doc.title, doc.kind, doc.status, degreeIn, degreeOut, doc.modified)
    }
  }

  /** One shared node per document, reachable by id and, for the first of each base name,
      by slug. */
  ghost predicate Loaded(p: Paths, project: string, docs: seq<Document>, byID: map<string, GraphNode>,
                         bySlug: map<string, GraphNode>)
  {
    && HoldsIds(project, docs, byID)
    && HoldsSlugs(Slugs(p, docs), byID, bySlug)
  }

  ghost predicate HoldsIds(project: string, docs: seq<Document>, byID: map<string, GraphNode>) {
    && byID.Keys == Ids(docs)
    && (forall i :: 0 <= i < |docs| ==> byID[docs[i].id].doc == docs[i])
    && (forall id :: id in byID ==> byID[id].project == project && byID[id].doc.id == id)
  }

  ghost predicate HoldsSlugs(slugs: map<string, string>, byID: map<string, GraphNode>, bySlug: map<string, GraphNode>) {
    && bySlug.Keys == slugs.Keys
    && (forall s :: s in slugs ==> slugs[s] in byID && bySlug[s] == byID[slugs[s]])
  }

  /** Each node's degrees count the first `n` edges. */
  ghost predicate Counted(byID: map<string, GraphNode>, edges: seq<Edge>)
    reads byID.Values
  {
    forall id :: id in byID ==>
      byID[id].degreeIn == InDegree(edges, id) && byID[id].degreeOut == OutDegree(edges, id)
  }

  lemma OneMoreId(docs: seq<Document>, i: nat)
    requires DistinctIds(docs) && i < |docs|
    ensures Ids(docs[..i + 1]) == Ids(docs[..i]) + {docs[i].id} && docs[i].id !in Ids(docs[..i])
  {
    assert docs[..i + 1][i] == docs[i];
    assert forall j :: 0 <= j < i ==> docs[..i][j] == docs[..i + 1][j];
  }

  lemma OneMoreSlug(p: Paths, docs: seq<Document>, i: nat)
    requires i < |docs|
    ensures var base, m := BaseOf(p, docs[i].id), Slugs(p, docs[..i]);
      Slugs(p, docs[..i + 1]) == if base == "" || base == "." || base in m then m else m[base := docs[i].id]
  {
    assert docs[..i + 1][..i] == docs[..i];
  }

  lemma LoadOne(p: Paths, project: string, docs: seq<Document>, byID: map<string, GraphNode>,
                bySlug: map<string, GraphNode>, i: nat, n: GraphNode)
    requires DistinctIds(docs) && i < |docs| && Loaded(p, project, docs[..i], byID, bySlug)
    requires n.doc == docs[i] && n.project == project
    ensures var base := BaseOf(p, docs[i].id);
      && docs[i].id !in byID
      && Loaded(p, project, docs[..i + 1], byID[docs[i].id := n],
                if base != "" && base != "." && base !in bySlug then bySlug[base := n] else bySlug)
  {
    HoldOneMoreId(project, docs, byID, i, n);
    OneMoreSlug(p, docs, i);
  }

  lemma HoldOneMoreId(project: string, docs: seq<Document>, byID: map<string, GraphNode>, i: nat, n: GraphNode)
    requires DistinctIds(docs) && i < |docs| && HoldsIds(project, docs[..i], byID)
    requires n.doc == docs[i] && n.project == project
    ensures docs[i].id !in byID && HoldsIds(project, docs[..i + 1], byID[docs[i].id := n])
  {
    OneMoreId(docs, i);
    var less, more, byID' := docs[..i], docs[..i + 1], byID[docs[i].id := n];
    forall j | 0 <= j < |more|
      ensures more[j].id in byID' && byID'[more[j].id].doc == more[j]
    {
      assert j < i ==> more[j] == less[j] && less[j].id in Ids(less);
    }
  }

  /** First writer wins for slugs. */
  method LoadProjectDocs(p: Paths, project: string, docs: seq<Document>)
      returns (byID: map<string, GraphNode>, bySlug: map<string, GraphNode>)
    requires DistinctIds(docs)
    ensures Loaded(p, project, docs, byID, bySlug) && fresh(byID.Values) && Counted(byID, [])
  {
    byID, bySlug := map[], map[];
    for i := 0 to |docs|
      invariant Loaded(p, project, docs[..i], byID, bySlug)
      invariant forall id :: id in byID ==> fresh(byID[id]) && byID[id].degreeIn == 0 && byID[id].degreeOut == 0
    {
      var n := new GraphNode(project, docs[i]);
      LoadOne(p, project, docs, byID, bySlug, i, n);
      byID := byID[docs[i].id := n];
      var base := p.base(TrimMd(docs[i].id));
      if base != "" && base != "." && base !in bySlug {
        bySlug := bySlug[base := n];
      }
    }
    assert docs[..|docs|] == docs;
  }

  /** The ids behind the slug map's nodes. */
  function IdsBehind(bySlug: map<string, GraphNode>): map<string, string> {
    map s | s in bySlug :: bySlug[s].doc.id
  }

  /** The two guarded increments of the edge loop. */
  method CountEdge(byID: map<string, GraphNode>, e: Edge, ghost before: seq<Edge>)
    requires Counted(byID, before) && forall id :: id in byID ==> byID[id].doc.id == id
    modifies byID.Values
    ensures Counted(byID, before + [e])
  {
    OneMoreEdge(before, e);
    if e.source in byID {
      byID[e.source].degreeOut := byID[e.source].degreeOut + 1;
    }
    if e.target in byID {
      byID[e.target].degreeIn := byID[e.target].degreeIn + 1;
    }
  }

  method LinkEdges(p: Paths, project: string, ghost docs: seq<Document>, refs: seq<Ref>, byID: map<string, GraphNode>,
                   bySlug: map<string, GraphNode>, edges: array<Edge>) returns (missing: set<string>)
    requires Loaded(p, project, docs, byID, bySlug) && Counted(byID, []) && edges.Length == |refs|
    modifies byID.Values, edges
    ensures edges[..] == Edges(p, docs, refs)
    ensures missing == MissingIds(edges[..])
    ensures Counted(byID, edges[..])
  {
    missing := {};
    assert IdsBehind(bySlug) == Slugs(p, docs);
    for i := 0 to |refs|
      invariant edges[..i] == Edges(p, docs, refs)[..i]
      invariant missing == MissingIds(edges[..i])
      invariant Counted(byID, edges[..i])
    {
      var r := refs[i];
      var (target, broken) := ResolveTarget(p, r, byID.Keys, IdsBehind(bySlug));
      if broken {
        missing := missing + {target};
      }
      ghost var before := edges[..i];
      var e := Edge(i, r.source, target, WireKind(r.linkType), broken);
      edges[i] := e;
      CountEdge(byID, e, before);
      OneMoreEdge(before, e);
      assert edges[..i + 1] == before + [e];
      assert Edges(p, docs, refs)[..i + 1] == Edges(p, docs, refs)[..i] + [EdgeAt(p, docs, refs, i)];
    }
    assert edges[..|refs|] == edges[..];
  }

  lemma OneMoreEdge(edges: seq<Edge>, e: Edge)
    ensures forall id :: OutDegree(edges + [e], id) == OutDegree(edges, id) + if e.source == id then 1 else 0
    ensures forall id :: InDegree(edges + [e], id) == InDegree(edges, id) + if e.target == id then 1 else 0
    ensures MissingIds(edges + [e]) == MissingIds(edges) + if e.broken then {e.target} else {}
  {
    var more := edges + [e];
    assert more[..|edges|] == edges;
    assert forall i :: 0 <= i < |edges| ==> edges[i] == more[i];
    assert more[|edges|] == e;
  }

  /** The known nodes of some of the ids. */
  ghost function KnownOf(project: string, byID: map<string, GraphNode>, edges: seq<Edge>, ids: set<string>): set<Node>
    requires ids <= byID.Keys
  {
    set id | id in ids :: KnownNode(project, byID[id].doc, edges)
  }

  ghost function MissingOf(p: Paths, project: string, ids: set<string>): set<Node> {
    set id | id in ids :: MissingNode(p, project, id)
  }

  lemma OneMoreKnown(project: string, docs: seq<Document>, byID: map<string, GraphNode>, edges: seq<Edge>,
                     ids: set<string>, id: string)
    requires HoldsIds(project, docs, byID) && ids <= byID.Keys && id in byID && id !in ids
    ensures multiset(KnownOf(project, byID, edges, ids + {id}))
         == multiset(KnownOf(project, byID, edges, ids)) + multiset{KnownNode(project, byID[id].doc, edges)}
  {
    var n := KnownNode(project, byID[id].doc, edges);
    assert n.id == id;
    assert n !in KnownOf(project, byID, edges, ids);
    assert KnownOf(project, byID, edges, ids + {id}) == KnownOf(project, byID, edges, ids) + {n};
  }

  lemma OneMoreMissing(p: Paths, project: string, ids: set<string>, id: string)
    requires id !in ids
    ensures multiset(MissingOf(p, project, ids + {id}))
         == multiset(MissingOf(p, project, ids)) + multiset{MissingNode(p, project, id)}
  {
    assert MissingNode(p, project, id) !in MissingOf(p, project, ids);
    assert MissingOf(p, project, ids + {id}) == MissingOf(p, project, ids) + {MissingNode(p, project, id)};
  }

  lemma AllOfKnown(project: string, docs: seq<Document>, byID: map<string, GraphNode>, edges: seq<Edge>)
    requires HoldsIds(project, docs, byID)
    ensures KnownOf(project, byID, edges, byID.Keys) == KnownNodes(project, docs, edges)
  {
    forall n | n in KnownOf(project, byID, edges, byID.Keys)
      ensures n in KnownNodes(project, docs, edges)
    {
      var id :| id in byID.Keys && n == KnownNode(project, byID[id].doc, edges);
      var i :| 0 <= i < |docs| && docs[i].id == id;
      assert n == KnownNode(project, docs[i], edges);
    }
    forall i | 0 <= i < |docs|
      ensures KnownNode(project, docs[i], edges) in KnownOf(project, byID, edges, byID.Keys)
    {
      assert docs[i].id in byID.Keys;
    }
  }

  method CollectKnown(project: string, ghost docs: seq<Document>, byID: map<string, GraphNode>, ghost edges: seq<Edge>)
      returns (nodes: seq<Node>)
    requires HoldsIds(project, docs, byID) && Counted(byID, edges)
    ensures multiset(nodes) == multiset(KnownNodes(project, docs, edges))
  {
    nodes := [];
    var todo := byID.Keys;
    while todo != {}
      invariant todo <= byID.Keys
      invariant multiset(nodes) == multiset(KnownOf(project, byID, edges, byID.Keys - todo))
    {
      var id :| id in todo;
      OneMoreKnown(project, docs, byID, edges, byID.Keys - todo, id);
      assert byID.Keys - todo + {id} == byID.Keys - (todo - {id});
      nodes := nodes + [byID[id].Value()];
      todo := todo - {id};
    }
    AllOfKnown(project, docs, byID, edges);
    assert byID.Keys - {} == byID.Keys;
  }

  /** The nodes out of the maps, in the order the maps are iterated. */
  method Materialise(p: Paths, project: string, ghost docs: seq<Document>, byID: map<string, GraphNode>,
                     ghost edges: seq<Edge>, missing: set<string>) returns (nodes: seq<Node>)
    requires HoldsIds(project, docs, byID) && Counted(byID, edges) && missing == MissingIds(edges)
    ensures multiset(nodes) == AllNodes(p, project, docs, edges)
  {
    nodes := CollectKnown(project, docs, byID, edges);
    ghost var known := multiset(nodes);
    var todo := missing;
    while todo != {}
      invariant todo <= missing
      invariant multiset(nodes) == known + multiset(MissingOf(p, project, missing - todo))
    {
      var id :| id in todo;
      OneMoreMissing(p, project, missing - todo, id);
      assert missing - todo + {id} == missing - (todo - {id});
      nodes := nodes + [MissingNode(p, project, id)];
      todo := todo - {id};
    }
    assert missing - {} == missing;
    assert MissingOf(p, project, missing) == MissingNodes(p, project, edges);
  }

  ghost predicate IsRanking(order: seq<Node>, nodes: multiset<Node>) {
    multiset(order) == nodes && IsRanked(order)
  }

  /** Where a node goes in a ranked list: after everything that outranks it. */
  function Place(nodes: seq<Node>, n: Node): (k: nat)
    ensures k <= |nodes| && (k < |nodes| ==> !Outranks(nodes[k], n)) && (k > 0 ==> Outranks(nodes[k - 1], n))
  {
    if nodes == [] || !Outranks(nodes[0], n) then 0 else 1 + Place(nodes[1..], n)
  }

  function Insert(nodes: seq<Node>, n: Node): seq<Node> {
    nodes[..Place(nodes, n)] + [n] + nodes[Place(nodes, n)..]
  }

  lemma InsertAdds(nodes: seq<Node>, n: Node)
    ensures multiset(Insert(nodes, n)) == multiset(nodes) + multiset{n}
  {
    assert nodes == nodes[..Place(nodes, n)] + nodes[Place(nodes, n)..];
  }

  lemma InsertKeepsRanking(nodes: seq<Node>, n: Node)
    requires IsRanked(nodes)
    ensures IsRanked(Insert(nodes, n))
  {
    var k := Place(nodes, n);
    forall i | 0 <= i < |nodes|
      ensures i < k ==> !Outranks(n, nodes[i])
      ensures i >= k ==> !Outranks(nodes[i], n)
    {
      if i < k {
        RankingIsTotal(nodes[k - 1], n);
        RankingIsTotal(nodes[k - 1], nodes[k - 1]);
        RankingIsTransitive(nodes[i], nodes[k - 1], n);
      } else {
        RankingIsTotal(nodes[k], nodes[k]);
        RankingIsTransitive(n, nodes[k], nodes[i]);
      }
    }
  }

  /** sort.Slice with the ranking; the order among ties is left open. */
  method Sort(nodes: seq<Node>) returns (order: seq<Node>)
    ensures IsRanking(order, multiset(nodes))
  {
    order := [];
    for i := 0 to |nodes|
      invariant IsRanking(order, multiset(nodes[..i]))
    {
      assert nodes[..i + 1] == nodes[..i] + [nodes[i]];
      InsertKeepsRanking(order, nodes[i]);
      InsertAdds(order, nodes[i]);
      order := Insert(order, nodes[i]);
    }
    assert nodes[..|nodes|] == nodes;
  }

  predicate BothEnds(e: Edge, retained: set<string>) {
    e.source in retained && e.target in retained
  }

  function Kept(edges: seq<Edge>, retained: set<string>): seq<Edge> {
    if edges == [] then []
    else
      var e := edges[|edges| - 1];
      Kept(edges[..|edges| - 1], retained) + if BothEnds(e, retained) then [e] else []
  }

  /** Filters into the front of the slice it reads from. */
  method FilterEdges(edges: array<Edge>, retained: set<string>) returns (kept: nat)
    modifies edges
    ensures kept <= edges.Length && edges[..kept] == Kept(old(edges[..]), retained)
  {
    kept := 0;
    ghost var all := edges[..];
    for i := 0 to edges.Length
      invariant kept <= i && edges[i..] == all[i..]
      invariant edges[..kept] == Kept(all[..i], retained)
    {
      assert edges[i] == edges[i..][0] == all[i] && all[..i + 1][..i] == all[..i];
      assert edges[i + 1..] == edges[i..][1..];
      if BothEnds(edges[i], retained) {
        edges[kept] := edges[i];
        kept := kept + 1;
      }
    }
    assert all[..edges.Length] == all;
  }

  function NodeIds(nodes: seq<Node>): set<string> {
    set i | 0 <= i < |nodes| :: nodes[i].id
  }

  /** What a project's graph is: all its nodes ranked and cut at the cap, and the edges
      between those that are left. */
  ghost predicate IsGraph(p: Paths, project: string, docs: seq<Document>, refs: seq<Ref>, cap: nat, order: seq<Node>, g: Graph) {
    && IsRanking(order, AllNodes(p, project, docs, Edges(p, docs, refs)))
    && g.nodes == (if |order| > cap then order[..cap] else order)
    && g.truncated == (|order| > cap) && g.totalNodes == |order| && g.totalEdges == |refs|
    && g.edges == Kept(Edges(p, docs, refs), NodeIds(g.nodes))
  }

  /** `docsReadable` and `refsReadable` say whether the two queries go through. */
  method GetGraphForProject(p: Paths, project: string, docs: seq<Document>, refs: seq<Ref>, cap: nat,
                            docsReadable: bool, refsReadable: bool)
      returns (result: Result<Graph, QueryError>, ghost order: seq<Node>)
    requires DistinctIds(docs)
    ensures result.Ok? <==> project != "" && docsReadable && refsReadable
    ensures project == "" ==> result == Err(EmptyProject)
    ensures project != "" && !docsReadable ==> result == Err(DocumentsUnreadable)
    ensures project != "" && docsReadable && !refsReadable ==> result == Err(ReferencesUnreadable)
    ensures result.Ok? ==> IsGraph(p, project, docs, refs, cap, order, result.value)
  {
    if project == "" {
      return Err(EmptyProject), [];
    }
    if !docsReadable {
      return Err(DocumentsUnreadable), [];
    }
    if !refsReadable {
      return Err(ReferencesUnreadable), [];
    }
    var byID, bySlug := LoadProjectDocs(p, project, docs);
    var edges := new Edge[|refs|];
    var missing := LinkEdges(p, project, docs, refs, byID, bySlug, edges);
    var all := Materialise(p, project, docs, byID, edges[..], missing);
    var nodes := Sort(all);
    order := nodes;
    var totalNodes, truncated := |nodes|, false;
    if |nodes| > cap {
      nodes, truncated := nodes[..cap], true;
    }
    var kept := FilterEdges(edges, NodeIds(nodes));
    result := Ok(Graph(nodes, edges[..kept], truncated, totalNodes, |refs|));
  }

  // ---- What the graph promises ----------------------------------------------

  /** Document ids are written project/path, so they look like paths. */
  ghost predicate PathLikeIds(p: Paths, docs: seq<Document>) {
    forall i :: 0 <= i < |docs| ==> docs[i].id != "" && LooksLikePath(p, docs[i].id)
  }

  /** With path-like document ids no made-up node takes a document's id. */
  lemma MadeUpIdsAreUnknown(p: Paths, docs: seq<Document>, refs: seq<Ref>)
    requires PathLikeIds(p, docs)
    ensures MissingIds(Edges(p, docs, refs)) !! Ids(docs)
  {
    var edges := Edges(p, docs, refs);
    forall i | 0 <= i < |edges| && edges[i].broken
      ensures edges[i].target !in Ids(docs)
    {
      BrokenMeansUnknown(p, docs, refs[i]);
      assert edges[i] == EdgeAt(p, docs, refs, i);
    }
  }

  lemma KnownNodesAreDistinct(project: string, docs: seq<Document>, edges: seq<Edge>, a: Node, b: Node)
    requires DistinctIds(docs) && a in KnownNodes(project, docs, edges) && b in KnownNodes(project, docs, edges)
    ensures a.id in Ids(docs) && (a.id == b.id ==> a == b)
  {
    var i :| 0 <= i < |docs| && a == KnownNode(project, docs[i], edges);
    var j :| 0 <= j < |docs| && b == KnownNode(project, docs[j], edges);
  }

  lemma MissingNodesAreDistinct(p: Paths, project: string, edges: seq<Edge>, a: Node, b: Node)
    requires a in MissingNodes(p, project, edges) && b in MissingNodes(p, project, edges)
    ensures a.id in MissingIds(edges) && (a.id == b.id ==> a == b)
  {
  }

  /** So ids name nodes: each node occurs once, and no two share an id. */
  lemma NodesAreDistinct(p: Paths, project: string, docs: seq<Document>, refs: seq<Ref>)
    requires DistinctIds(docs) && PathLikeIds(p, docs)
    ensures NamedById(AllNodes(p, project, docs, Edges(p, docs, refs)))
  {
    var edges := Edges(p, docs, refs);
    var all := AllNodes(p, project, docs, edges);
    MadeUpIdsAreUnknown(p, docs, refs);
    forall a, b | a in all && b in all
      ensures all[a] == 1 && (a.id == b.id ==> a == b)
    {
      DistinctNodes(p, project, docs, edges, a, b);
    }
  }

  ghost predicate NamedById(nodes: multiset<Node>) {
    && (forall a :: a in nodes ==> nodes[a] == 1)
    && (forall a, b :: a in nodes && b in nodes && a.id == b.id ==> a == b)
  }

  /** No two nodes of an emitted graph share an id. */
  lemma EmittedIdsAreDistinct(p: Paths, project: string, docs: seq<Document>, refs: seq<Ref>, cap: nat,
                              order: seq<Node>, g: Graph)
    requires DistinctIds(docs) && PathLikeIds(p, docs)
    ensures IsGraph(p, project, docs, refs, cap, order, g) ==>
      forall i, j :: 0 <= i < j < |g.nodes| ==> g.nodes[i].id != g.nodes[j].id
  {
    if IsGraph(p, project, docs, refs, cap, order, g) {
      NodesAreDistinct(p, project, docs, refs);
      forall i, j | 0 <= i < j < |g.nodes|
        ensures g.nodes[i].id != g.nodes[j].id
      {
        assert g.nodes[i] == order[i] && g.nodes[j] == order[j];
        NamedOnce(order, i, j);
      }
    }
  }

  lemma NamedOnce(order: seq<Node>, i: nat, j: nat)
    requires NamedById(multiset(order)) && i < j < |order|
    ensures order[i].id != order[j].id
  {
    assert order[i] in multiset(order) && order[j] in multiset(order);
    CountedTwice(order, i, j);
  }

  lemma CountedTwice(order: seq<Node>, i: nat, j: nat)
    requires i < j < |order|
    ensures order[i] == order[j] ==> multiset(order)[order[i]] >= 2
  {
    assert order == order[..j] + order[j..];
    assert order[..j][i] == order[i] && order[j..][0] == order[j];
    assert order[i] in multiset(order[..j]) && order[j] in multiset(order[j..]);
  }

  lemma DistinctNodes(p: Paths, project: string, docs: seq<Document>, edges: seq<Edge>, a: Node, b: Node)
    requires DistinctIds(docs) && MissingIds(edges) !! Ids(docs)
    requires a in AllNodes(p, project, docs, edges) && b in AllNodes(p, project, docs, edges)
    ensures AllNodes(p, project, docs, edges)[a] == 1
    ensures a.id == b.id ==> a == b
  {
    var known, missing := KnownNodes(project, docs, edges), MissingNodes(p, project, edges);
    forall x, y | x in known && y in missing
      ensures x.id != y.id
    {
      KnownNodesAreDistinct(project, docs, edges, x, x);
      MissingNodesAreDistinct(p, project, edges, y, y);
    }
    if a in known && b in known {
      KnownNodesAreDistinct(project, docs, edges, a, b);
    }
    if a in missing && b in missing {
      MissingNodesAreDistinct(p, project, edges, a, b);
    }
  }

  lemma WithoutTop(x: seq<Node>)
    requires x != []
    ensures x == [x[0]] + x[1..] && multiset(x[1..]) == multiset(x) - multiset{x[0]}
  {
    assert x == [x[0]] + x[1..];
  }

  lemma TopIsUnique(x: seq<Node>, y: seq<Node>)
    requires IsRanked(x) && IsRanked(y) && x != [] && y != []
    requires x[0] in y && y[0] in x
    requires x[0].id == y[0].id ==> x[0] == y[0]
    ensures x[0] == y[0]
  {
    RankingIsTotal(x[0], y[0]);
  }

  /** Ranked lists of the same distinctly named nodes are the same list. */
  lemma {:induction false} RankingIsUnique(x: seq<Node>, y: seq<Node>)
    requires IsRanked(x) && IsRanked(y) && multiset(x) == multiset(y)
    requires forall a, b :: a in multiset(x) && b in multiset(x) && a.id == b.id ==> a == b
    ensures x == y
  {
    assert |x| == |multiset(x)| == |multiset(y)| == |y|;
    if x != [] {
      assert x[0] in multiset(y) && y[0] in multiset(x);
      TopIsUnique(x, y);
      WithoutTop(x);
      WithoutTop(y);
      RankingIsUnique(x[1..], y[1..]);
    }
  }

  /** The order in which Go iterates its maps, and how sort.Slice treats ties, cannot be
      seen: the result is a function of the rows read. */
  lemma GraphIsDetermined(p: Paths, project: string, docs: seq<Document>, refs: seq<Ref>, cap: nat,
                          order: seq<Node>, g: Graph, order': seq<Node>, g': Graph)
    requires DistinctIds(docs) && PathLikeIds(p, docs)
    ensures IsGraph(p, project, docs, refs, cap, order, g) && IsGraph(p, project, docs, refs, cap, order', g') ==> g == g'
  {
    if IsGraph(p, project, docs, refs, cap, order, g) && IsGraph(p, project, docs, refs, cap, order', g') {
      NodesAreDistinct(p, project, docs, refs);
      RankingIsUnique(order, order');
    }
  }

  /** The nodes kept are the best ranked: each of them strictly outranks every node that
      the cap dropped. */
  lemma CapKeepsTheBest(p: Paths, project: string, docs: seq<Document>, refs: seq<Ref>, cap: nat,
                        order: seq<Node>, g: Graph, best: Node, dropped: Node)
    requires DistinctIds(docs) && PathLikeIds(p, docs) && IsGraph(p, project, docs, refs, cap, order, g)
    requires best in g.nodes && dropped in AllNodes(p, project, docs, Edges(p, docs, refs)) && dropped !in g.nodes
    ensures Outranks(best, dropped) && |g.nodes| == cap && g.truncated
    ensures dropped.degreeIn + dropped.degreeOut <= best.degreeIn + best.degreeOut
    ensures dropped.degreeIn + dropped.degreeOut == best.degreeIn + best.degreeOut ==> !Less(best.modified, dropped.modified)
  {
    LessIsTotal(best.modified, dropped.modified);
    var all := AllNodes(p, project, docs, Edges(p, docs, refs));
    InRanking(order, all, |g.nodes|, best, dropped);
    NodesAreDistinct(p, project, docs, refs);
    RankingIsTotal(best, dropped);
  }

  lemma InRanking(order: seq<Node>, all: multiset<Node>, k: nat, a: Node, b: Node)
    requires IsRanking(order, all) && k <= |order| && a in order[..k] && b in all && b !in order[..k]
    ensures a in all && k < |order| && !Outranks(b, a)
  {
    assert order == order[..k] + order[k..];
    assert b in order && a in order;
    RankedApart(order, k, a, b);
  }

  lemma RankedApart(order: seq<Node>, k: nat, a: Node, b: Node)
    requires IsRanked(order) && k <= |order| && a in order[..k] && b in order[k..]
    ensures !Outranks(b, a)
  {
    var i :| 0 <= i < k && order[..k][i] == a;
    var j :| 0 <= j < |order| - k && order[k..][j] == b;
    assert order[i] == a && order[k + j] == b;
  }

  /** The edges kept are those with both ends kept, in the order of the rows. */
  lemma {:induction false} KeptIsExact(edges: seq<Edge>, retained: set<string>)
    requires forall i :: 0 <= i < |edges| ==> edges[i].index == i
    ensures var kept := Kept(edges, retained);
      && (forall i, j :: 0 <= i < j < |kept| ==> kept[i].index < kept[j].index)
      && (forall e :: e in kept <==> e in edges && e.source in retained && e.target in retained)
  {
    if edges != [] {
      var less := edges[..|edges| - 1];
      KeptIsExact(less, retained);
      assert edges == less + [edges[|edges| - 1]];
      forall i | 0 <= i < |Kept(less, retained)|
        ensures Kept(less, retained)[i].index < |less|
      {
        assert Kept(less, retained)[i] in less;
      }
    }
  }

  function SumOut(docs: seq<Document>, edges: seq<Edge>): nat {
    if docs == [] then 0 else SumOut(docs[..|docs| - 1], edges) + OutDegree(edges, docs[|docs| - 1].id)
  }

  function SumIn(docs: seq<Document>, edges: seq<Edge>): nat {
    if docs == [] then 0 else SumIn(docs[..|docs| - 1], edges) + InDegree(edges, docs[|docs| - 1].id)
  }

  /** Edges that leave, and edges that reach, one of the ids. */
  function Leaving(edges: seq<Edge>, ids: set<string>): nat {
    if edges == [] then 0
    else Leaving(edges[..|edges| - 1], ids) + if edges[|edges| - 1].source in ids then 1 else 0
  }

  function Reaching(edges: seq<Edge>, ids: set<string>): nat {
    if edges == [] then 0
    else Reaching(edges[..|edges| - 1], ids) + if edges[|edges| - 1].target in ids then 1 else 0
  }

  lemma {:induction false} OneMoreEnd(edges: seq<Edge>, ids: set<string>, id: string)
    requires id !in ids
    ensures Leaving(edges, ids + {id}) == Leaving(edges, ids) + OutDegree(edges, id)
    ensures Reaching(edges, ids + {id}) == Reaching(edges, ids) + InDegree(edges, id)
  {
    if edges != [] {
      OneMoreEnd(edges[..|edges| - 1], ids, id);
    }
  }

  lemma {:induction false} NoEnds(edges: seq<Edge>)
    ensures Leaving(edges, {}) == 0 && Reaching(edges, {}) == 0
  {
    if edges != [] {
      NoEnds(edges[..|edges| - 1]);
    }
  }

  /** Nothing is counted twice or lost: the documents' degrees add up to the edges that
      leave, and that reach, a document. */
  lemma {:induction false} DegreesAddUp(docs: seq<Document>, edges: seq<Edge>)
    requires DistinctIds(docs)
    ensures SumOut(docs, edges) == Leaving(edges, Ids(docs)) && SumIn(docs, edges) == Reaching(edges, Ids(docs))
  {
    if docs == [] {
      assert Ids(docs) == {};
      NoEnds(edges);
    } else {
      var n := |docs| - 1;
      DegreesAddUp(docs[..n], edges);
      OneMoreId(docs, n);
      assert docs[..n + 1] == docs;
      OneMoreEnd(edges, Ids(docs[..n]), docs[n].id);
    }
  }

  /** When no two documents share a base name, the order in which the rows come back does
      not matter either. */
  lemma RowOrderIsIrrelevant(p: Paths, docs: seq<Document>, docs': seq<Document>, refs: seq<Ref>)
    requires Ids(docs) == Ids(docs')
    requires forall a, b :: a in Ids(docs) && b in Ids(docs) && BaseOf(p, a) == BaseOf(p, b) ==> a == b
    ensures Edges(p, docs, refs) == Edges(p, docs', refs)
  {
    SlugsAreTotal(p, docs);
    SlugsAreTotal(p, docs');
    forall s | s in Slugs(p, docs)
      ensures s in Slugs(p, docs') && Slugs(p, docs)[s] == Slugs(p, docs')[s]
    {
      assert BaseOf(p, Slugs(p, docs)[s]) == BaseOf(p, Slugs(p, docs')[s]);
    }
    assert Slugs(p, docs).Keys == Slugs(p, docs').Keys;
    assert Slugs(p, docs) == Slugs(p, docs');
    forall i | 0 <= i < |refs|
      ensures EdgeAt(p, docs, refs, i) == EdgeAt(p, docs', refs, i)
    {
    }
    assert Edges(p, docs, refs) == Edges(p, docs', refs);
  }

  lemma {:induction false} SlugsAreTotal(p: Paths, docs: seq<Document>)
    ensures forall s :: s in Slugs(p, docs) <==> s != "" && s != "." && exists id :: id in Ids(docs) && BaseOf(p, id) == s
  {
    if docs != [] {
      var n := |docs| - 1;
      SlugsAreTotal(p, docs[..n]);
      assert forall i :: 0 <= i < n ==> docs[..n][i] == docs[i];
      assert forall id :: id in Ids(docs) <==> id in Ids(docs[..n]) || id == docs[n].id;
    }
  }
}

/** What a reader of the reference graph (internal/docgraph/graph_query.go) can rely on,
    field by field: edges, degrees, nodes, their order and the totals. */
module GraphFacts {
  import opened GraphQuery

  // ---- Edges ----------------------------------------------------------------

  /** Whether a target is tried as a path. */
  predicate PathShaped(p: Paths, raw: string) {
    '/' in raw || HasSuffix(p.lower(raw), ".md") || HasSuffix(p.lower(raw), ".mdx")
  }

  /** The id without its extension. */
  predicate IsStem(id: string, stem: string) {
    id == stem + ".md" || (id == stem && !HasSuffix(id, ".md"))
  }

  /** `d` is the first document with this base name. */
  ghost predicate FirstOfBase(p: Paths, docs: seq<Document>, k: nat, base: string) {
    && k < |docs| && HasBase(p, docs[k].id, base)
    && forall i :: 0 <= i < k ==> !HasBase(p, docs[i].id, base)
  }

  ghost predicate HasBase(p: Paths, id: string, base: string) {
    exists stem :: IsStem(id, stem) && p.base(stem) == base
  }

  lemma StemHasSuffix(stem: string)
    ensures HasSuffix(stem + ".md", ".md")
  {
  }

  lemma BaseOfStem(p: Paths, id: string, base: string)
    ensures HasBase(p, id, base) <==> BaseOf(p, id) == base
  {
    if HasSuffix(id, ".md") {
      assert id == id[..|id| - 3] + id[|id| - 3..];
      assert IsStem(id, id[..|id| - 3]);
      forall stem | IsStem(id, stem)
        ensures stem == id[..|id| - 3]
      {
        assert (stem + ".md")[..|stem|] == stem;
      }
    } else {
      assert IsStem(id, id);
      forall stem | IsStem(id, stem)
        ensures stem == id
      {
        StemHasSuffix(stem);
      }
    }
  }

  /** The first of the base names equal to `base`, or their number. */
  function FirstAt(bases: seq<string>, base: string): (k: nat)
    ensures k <= |bases| && (k < |bases| ==> bases[k] == base) && forall i :: 0 <= i < k ==> bases[i] != base
  {
    if bases == [] || bases[0] == base then 0 else 1 + FirstAt(bases[1..], base)
  }

  lemma {:induction false} FirstOfMore(bases: seq<string>, last: string, base: string)
    ensures FirstAt(bases + [last], base) ==
      if FirstAt(bases, base) < |bases| || last == base then FirstAt(bases, base) else |bases| + 1
  {
    if bases != [] && bases[0] != base {
      FirstOfMore(bases[1..], last, base);
      assert (bases + [last])[1..] == bases[1..] + [last];
    }
  }

  function Bases(p: Paths, docs: seq<Document>): (bases: seq<string>)
    ensures |bases| == |docs| && forall i :: 0 <= i < |docs| ==> bases[i] == BaseOf(p, docs[i].id)
  {
    seq(|docs|, i requires 0 <= i < |docs| => BaseOf(p, docs[i].id))
  }

  /** The map finds under `base` the document at `k`, if there is one. */
  ghost predicate Finds(m: map<string, string>, base: string, docs: seq<Document>, k: nat) {
    && (base in m <==> base != "" && base != "." && k < |docs|)
    && (base in m ==> k < |docs| && m[base] == docs[k].id)
  }

  lemma FindsMore(m: map<string, string>, base: string, docs: seq<Document>, k: nat, d: Document, name: string)
    requires Finds(m, base, docs, k) && k <= |docs|
    ensures Finds(if name == "" || name == "." || name in m then m else m[name := d.id], base, docs + [d],
                  if k < |docs| || name == base then k else |docs| + 1)
  {
  }

  lemma BasesOfMore(p: Paths, docs: seq<Document>, d: Document)
    ensures Bases(p, docs + [d]) == Bases(p, docs) + [BaseOf(p, d.id)]
  {
  }

  lemma SlugsOfMore(p: Paths, docs: seq<Document>, d: Document)
    ensures var (m, name) := (Slugs(p, docs), BaseOf(p, d.id));
      Slugs(p, docs + [d]) == if name == "" || name == "." || name in m then m else m[name := d.id]
  {
    assert (docs + [d])[..|docs|] == docs;
  }

  lemma FindsOneMore(p: Paths, docs: seq<Document>, d: Document, base: string)
    requires Finds(Slugs(p, docs), base, docs, FirstAt(Bases(p, docs), base))
    ensures Finds(Slugs(p, docs + [d]), base, docs + [d], FirstAt(Bases(p, docs + [d]), base))
  {
    BasesOfMore(p, docs, d);
    SlugsOfMore(p, docs, d);
    FirstOfMore(Bases(p, docs), BaseOf(p, d.id), base);
    FindsMore(Slugs(p, docs), base, docs, FirstAt(Bases(p, docs), base), d, BaseOf(p, d.id));
  }

  lemma {:induction false} SlugsAreFirstAt(p: Paths, docs: seq<Document>, base: string)
    ensures Finds(Slugs(p, docs), base, docs, FirstAt(Bases(p, docs), base))
  {
    if docs != [] {
      var less, last := docs[..|docs| - 1], docs[|docs| - 1];
      assert docs == less + [last];
      SlugsAreFirstAt(p, less, base);
      FindsOneMore(p, less, last, base);
    }
  }

  lemma FirstOfBaseIs(p: Paths, docs: seq<Document>, k: nat, base: string)
    ensures FirstOfBase(p, docs, k, base) <==> k < |docs| && k == FirstAt(Bases(p, docs), base)
  {
    forall i | 0 <= i < |docs|
      ensures HasBase(p, docs[i].id, base) <==> Bases(p, docs)[i] == base
    {
      BaseOfStem(p, docs[i].id, base);
    }
  }

  /** Base names are looked up first come, first served; empty ones are not kept. */
  lemma SlugsAreFirst(p: Paths, docs: seq<Document>, base: string)
    ensures base in Slugs(p, docs) <==>
      base != "" && base != "." && exists k: nat :: FirstOfBase(p, docs, k, base)
    ensures base in Slugs(p, docs) ==>
      exists k: nat :: FirstOfBase(p, docs, k, base) && Slugs(p, docs)[base] == docs[k].id
  {
    SlugsAreFirstAt(p, docs, base);
    FirstOfBaseIs(p, docs, FirstAt(Bases(p, docs), base), base);
    if k: nat :| FirstOfBase(p, docs, k, base) {
      FirstOfBaseIs(p, docs, k, base);
    }
  }

  /** The kinds of edges as they go over the wire; a kind not listed goes as it is. */
  predicate GoesAs(linkType: string, kind: string) {
    || (linkType == "md-link" && kind == "mdlink")
    || (linkType == "vedox-scheme" && kind == "vedox_ref")
    || (linkType != "md-link" && linkType != "vedox-scheme" && kind == linkType)
  }

  /** What an edge says of the reference it stands for. */
  ghost predicate TellsReference(p: Paths, docs: seq<Document>, e: Edge, i: nat, r: Ref) {
    var raw := p.trimSpace(r.target);
    && e.index == i && e.source == r.source && GoesAs(r.linkType, e.kind)
    && (!e.broken ==> e.target in Ids(docs))
    && (e.broken ==> e.target == if raw != "" && PathShaped(p, raw) then p.locate(r.source, raw) else raw)
  }

  lemma EdgesTellReferences(p: Paths, docs: seq<Document>, refs: seq<Ref>)
    ensures var edges := Edges(p, docs, refs);
      |edges| == |refs| && forall i :: 0 <= i < |refs| ==> TellsReference(p, docs, edges[i], i, refs[i])
  {
    forall i | 0 <= i < |refs|
      ensures TellsReference(p, docs, Edges(p, docs, refs)[i], i, refs[i])
    {
      BrokenMeansUnknown(p, docs, refs[i]);
      assert Edges(p, docs, refs)[i] == EdgeAt(p, docs, refs, i);
    }
  }

  // ---- Degrees --------------------------------------------------------------

  ghost function EdgesInto(edges: seq<Edge>, id: string): set<nat> {
    set i: nat | i < |edges| && edges[i].target == id
  }

  ghost function EdgesFrom(edges: seq<Edge>, id: string): set<nat> {
    set i: nat | i < |edges| && edges[i].source == id
  }

  lemma {:induction false} InDegreeCounts(edges: seq<Edge>, id: string)
    ensures InDegree(edges, id) == |EdgesInto(edges, id)|
  {
    if edges != [] {
      var n := |edges| - 1;
      InDegreeCounts(edges[..n], id);
      OneMoreInSet(EdgesInto(edges[..n], id), n, EdgesInto(edges, id), edges[n].target == id);
    }
  }

  lemma {:induction false} OutDegreeCounts(edges: seq<Edge>, id: string)
    ensures OutDegree(edges, id) == |EdgesFrom(edges, id)|
  {
    if edges != [] {
      var n := |edges| - 1;
      OutDegreeCounts(edges[..n], id);
      OneMoreInSet(EdgesFrom(edges[..n], id), n, EdgesFrom(edges, id), edges[n].source == id);
    }
  }

  lemma OneMoreInSet(s: set<nat>, n: nat, t: set<nat>, more: bool)
    requires n !in s && forall i :: i in t <==> i in s || (more && i == n)
    ensures |t| == |s| + if more then 1 else 0
  {
    assert t == if more then s + {n} else s;
  }

  // ---- Nodes ----------------------------------------------------------------

  /** A document's node: the document's own fields, and as degrees the numbers of edges at
      its two ends, before any edge is dropped. */
  ghost predicate TellsDocument(n: Node, project: string, d: Document, edges: seq<Edge>) {
    && n.id == d.id && n.project == project && n.title == d.title && n.kind == d.kind && n.status == d.status
    && n.modified == d.modified
    && (d.id == project + "/" + n.slug || (d.id == n.slug && !(project + "/" <= d.id)))
    && n.degreeIn == |EdgesInto(edges, d.id)| && n.degreeOut == |EdgesFrom(edges, d.id)|
  }

  /** The node made up for the target of a broken edge. */
  ghost predicate TellsMissing(p: Paths, n: Node, project: string, edges: seq<Edge>) {
    && (exists i :: 0 <= i < |edges| && edges[i].broken && edges[i].target == n.id)
    && n.project == project && HasBase(p, n.id, n.slug) && n.title == n.slug
    && n.kind == "missing" && n.status == "broken" && n.modified == "" && n.degreeIn == 0 == n.degreeOut
  }

  lemma KnownNodeTells(project: string, d: Document, edges: seq<Edge>)
    ensures TellsDocument(KnownNode(project, d, edges), project, d, edges)
  {
    InDegreeCounts(edges, d.id);
    OutDegreeCounts(edges, d.id);
    if project + "/" <= d.id {
      assert d.id == d.id[..|project| + 1] + d.id[|project| + 1..];
    }
  }

  ghost predicate IsDocumentNode(n: Node, project: string, docs: seq<Document>, edges: seq<Edge>) {
    exists k :: 0 <= k < |docs| && TellsDocument(n, project, docs[k], edges)
  }

  /** Every node is that of a document or that of a broken target. */
  lemma NodesTell(p: Paths, project: string, docs: seq<Document>, edges: seq<Edge>, n: Node)
    requires n in AllNodes(p, project, docs, edges)
    ensures IsDocumentNode(n, project, docs, edges) || TellsMissing(p, n, project, edges)
  {
    if n in KnownNodes(project, docs, edges) {
      var k :| 0 <= k < |docs| && n == KnownNode(project, docs[k], edges);
      KnownNodeTells(project, docs[k], edges);
    } else {
      assert n in MissingNodes(p, project, edges);
      BaseOfStem(p, n.id, n.slug);
    }
  }

  lemma MissingIsBroken(p: Paths, n: Node, project: string, edges: seq<Edge>)
    ensures TellsMissing(p, n, project, edges) ==> n.id in MissingIds(edges)
  {
  }

  lemma IdSettles(p: Paths, project: string, docs: seq<Document>, edges: seq<Edge>, n: Node, k: nat)
    requires DistinctIds(docs) && MissingIds(edges) !! Ids(docs) && k < |docs| && docs[k].id == n.id
    requires IsDocumentNode(n, project, docs, edges) || TellsMissing(p, n, project, edges)
    ensures TellsDocument(n, project, docs[k], edges)
  {
    assert n.id in Ids(docs);
    MissingIsBroken(p, n, project, edges);
    var j :| 0 <= j < |docs| && TellsDocument(n, project, docs[j], edges);
    assert j == k;
  }

  lemma IsInAll(all: multiset<Node>, order: seq<Node>, nodes: seq<Node>, n: Node)
    requires multiset(order) == all && nodes <= order && n in nodes
    ensures n in all
  {
    assert n in order;
  }

  /** In an emitted graph the id settles which: a node with a document's id has that
      document's fields and degrees, any other stands for a broken target. */
  lemma EmittedNodesTell(p: Paths, project: string, docs: seq<Document>, refs: seq<Ref>, cap: nat,
                         order: seq<Node>, g: Graph, n: Node)
    requires DistinctIds(docs) && PathLikeIds(p, docs) && IsGraph(p, project, docs, refs, cap, order, g) && n in g.nodes
    ensures var edges := Edges(p, docs, refs);
      && (forall k :: 0 <= k < |docs| && docs[k].id == n.id ==> TellsDocument(n, project, docs[k], edges))
      && (n.id !in Ids(docs) ==> TellsMissing(p, n, project, edges))
  {
    var edges := Edges(p, docs, refs);
    IsInAll(AllNodes(p, project, docs, edges), order, g.nodes, n);
    NodesTell(p, project, docs, edges, n);
    MadeUpIdsAreUnknown(p, docs, refs);
    forall k | 0 <= k < |docs| && docs[k].id == n.id
      ensures TellsDocument(n, project, docs[k], edges)
    {
      IdSettles(p, project, docs, edges, n, k);
    }
  }

  lemma OneMoreDocument(project: string, docs: seq<Document>, d: Document, edges: seq<Edge>)
    ensures KnownNodes(project, docs + [d], edges) == KnownNodes(project, docs, edges) + {KnownNode(project, d, edges)}
  {
    var more := docs + [d];
    assert more[|docs|] == d && forall i :: 0 <= i < |docs| ==> more[i] == docs[i];
    forall m | m in KnownNodes(project, docs, edges)
      ensures m in KnownNodes(project, more, edges)
    {
      var i :| 0 <= i < |docs| && m == KnownNode(project, docs[i], edges);
      assert m == KnownNode(project, more[i], edges);
    }
  }

  lemma {:induction false} OneNodeEach(project: string, docs: seq<Document>, edges: seq<Edge>)
    requires DistinctIds(docs)
    ensures |KnownNodes(project, docs, edges)| == |docs|
  {
    if docs != [] {
      var less, d := docs[..|docs| - 1], docs[|docs| - 1];
      assert docs == less + [d];
      OneNodeEach(project, less, edges);
      OneMoreDocument(project, less, d, edges);
      assert KnownNode(project, d, edges) !in KnownNodes(project, less, edges);
    } else {
      assert KnownNodes(project, docs, edges) == {};
    }
  }

  lemma {:induction false} OneNodePerTarget(p: Paths, project: string, ids: set<string>)
    ensures |MissingOf(p, project, ids)| == |ids|
  {
    if ids != {} {
      var id :| id in ids;
      OneNodePerTarget(p, project, ids - {id});
      assert MissingNode(p, project, id) !in MissingOf(p, project, ids - {id});
      assert MissingOf(p, project, ids) == MissingOf(p, project, ids - {id}) + {MissingNode(p, project, id)};
    }
  }

  /** The totals are those before the cap: one node per document and one per broken target,
      and one edge per reference; the graph says whether nodes were dropped. */
  lemma TotalsAreCounts(p: Paths, project: string, docs: seq<Document>, refs: seq<Ref>, cap: nat,
                        order: seq<Node>, g: Graph)
    requires DistinctIds(docs) && IsGraph(p, project, docs, refs, cap, order, g)
    ensures g.totalEdges == |refs|
    ensures g.totalNodes == |docs| + |set i | 0 <= i < |refs| && Edges(p, docs, refs)[i].broken :: Edges(p, docs, refs)[i].target|
    ensures |g.nodes| == (if g.totalNodes > cap then cap else g.totalNodes) && (g.truncated <==> g.totalNodes > cap)
  {
    var edges := Edges(p, docs, refs);
    OneNodeEach(project, docs, edges);
    OneNodePerTarget(p, project, MissingIds(edges));
    assert MissingOf(p, project, MissingIds(edges)) == MissingNodes(p, project, edges);
    assert |order| == |multiset(order)| == |AllNodes(p, project, docs, edges)|;
    assert MissingIds(edges) == set i | 0 <= i < |refs| && edges[i].broken :: edges[i].target;
  }

  /** Exactly the edges with a node at both ends are emitted, in the order of the rows. */
  lemma EmittedEdgesTell(p: Paths, project: string, docs: seq<Document>, refs: seq<Ref>, cap: nat,
                         order: seq<Node>, g: Graph, e: Edge)
    requires IsGraph(p, project, docs, refs, cap, order, g)
    ensures e in g.edges <==>
      && e in Edges(p, docs, refs)
      && (exists i :: 0 <= i < |g.nodes| && g.nodes[i].id == e.source)
      && (exists i :: 0 <= i < |g.nodes| && g.nodes[i].id == e.target)
    ensures forall i, j :: 0 <= i < j < |g.edges| ==> g.edges[i].index < g.edges[j].index
  {
    KeptIsExact(Edges(p, docs, refs), NodeIds(g.nodes));
  }

  // ---- The order of the nodes -----------------------------------------------

  /** `a` comes before `b` in a dictionary: the first character in which they differ is
      smaller in `a`, or `a` ends where `b` goes on. */
  ghost predicate BeforeAt(a: string, b: string, k: nat) {
    k <= |a| && k < |b| && a[..k] == b[..k] && (k == |a| || a[k] < b[k])
  }

  lemma {:induction false} LessIff(a: string, b: string)
    ensures Less(a, b) <==> exists k: nat :: BeforeAt(a, b, k)
  {
    if a != "" && b != "" && a[0] == b[0] {
      LessIff(a[1..], b[1..]);
      assert a == [a[0]] + a[1..] && b == [b[0]] + b[1..];
      if k: nat :| BeforeAt(a[1..], b[1..], k) {
        assert a[..k + 1] == [a[0]] + a[1..][..k] && b[..k + 1] == [b[0]] + b[1..][..k];
        assert BeforeAt(a, b, k + 1);
      }
      if k: nat :| BeforeAt(a, b, k) {
        assert k > 0 ==> a[..k][1..] == a[1..][..k - 1] && b[..k][1..] == b[1..][..k - 1];
        assert k > 0 ==> BeforeAt(a[1..], b[1..], k - 1);
      }
    } else if b != "" && (a == "" || a[0] < b[0]) {
      assert BeforeAt(a, b, 0);
    } else if a != "" && b != "" {
      assert forall k: nat :: k > 0 && BeforeAt(a, b, k) ==> a[..k][0] == b[..k][0];
    }
  }

  /** Nodes come by number of links, most first; then by time, latest first; then by id. */
  lemma NodesAreInOrder(p: Paths, project: string, docs: seq<Document>, refs: seq<Ref>, cap: nat,
                        order: seq<Node>, g: Graph, i: nat, j: nat)
    requires DistinctIds(docs) && PathLikeIds(p, docs) && IsGraph(p, project, docs, refs, cap, order, g)
    requires i < j < |g.nodes|
    ensures var (a, b) := (g.nodes[i], g.nodes[j]);
      var (sa, sb) := (a.degreeIn + a.degreeOut, b.degreeIn + b.degreeOut);
      && sb <= sa
      && (sa == sb && a.modified != b.modified ==> exists k: nat :: BeforeAt(b.modified, a.modified, k))
      && (sa == sb && a.modified == b.modified ==> exists k: nat :: BeforeAt(a.id, b.id, k))
  {
    var a, b := g.nodes[i], g.nodes[j];
    assert a == order[i] && b == order[j];
    EmittedIdsAreDistinct(p, project, docs, refs, cap, order, g);
    RankingIsTotal(a, b);
    LessIff(b.modified, a.modified);
    LessIff(a.id, b.id);
  }
}

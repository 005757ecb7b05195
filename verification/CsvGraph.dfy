/** A dependency graph as CSV rows (src/routes/graph_exports/csv.rs): the header,
    then one row for each package, root, node and edge. */
module CsvGraph {
  import opened Prelude
  import opened Text
  import opened JsonText
  import opened Csv

  datatype Identity = Identity(registryId: string, org: string, name: string, version: string)

  datatype Kind = Runtime | Build | Development | Peer | Tooling

  datatype Completeness = Complete | Projected

  datatype Dependency = Dependency(
    registryId: string, org: string, name: string, requirement: string, kind: Kind, optional: bool,
    defaultFeatures: bool, features: seq<string>, target: Option<string>)

  datatype Node = Node(id: Identity, features: seq<string>, artifactDigest: Option<string>)

  datatype Edge = Edge(
    source: Identity, to: Identity, requirement: Option<string>, kind: Kind, optional: bool,
    features: seq<string>, target: Option<string>)

  datatype Graph =
    | Declared(package: Identity, dependencies: seq<Dependency>)
    | Resolved(completeness: Completeness, roots: seq<Identity>, nodes: seq<Node>, edges: seq<Edge>)

  datatype Document = Document(schema: string, digest: Option<string>, graph: Graph)

  // ---- Cells ----

  const HEADER: seq<string> := [
    "record_type", "view", "graph_digest", "from_registry", "from_org", "from_name", "from_version", "to_registry",
    "to_org", "to_name", "to_version", "requirement", "kind", "optional", "default_features", "target",
    "features_json", "artifact_digest", "completeness", "schema"]

  const NOBODY: Identity := Identity("", "", "", "")

  function Blank(o: Option<string>): string {
    if o.Some? then o.value else ""
  }

  function BoolName(o: Option<bool>): string {
    if o.None? then "" else if o.value then "true" else "false"
  }

  function KindName(kind: Kind): string {
    match kind
    case Runtime => "runtime"
    case Build => "build"
    case Development => "development"
    case Peer => "peer"
    case Tooling => "tooling"
  }

  function CompletenessName(c: Completeness): string {
    if c.Complete? then "complete" else "projected"
  }

  /** `serde_json::to_string` of a list of strings. */
  function FeaturesJson(features: seq<string>): string {
    "[" + FeatureList(features) + "]"
  }

  function FeatureList(features: seq<string>): string {
    if features == [] then ""
    else JsonString(features[0]) + (if |features| == 1 then "" else "," + FeatureList(features[1..]))
  }

  function Cells(id: Identity): seq<string> {
    [id.registryId, id.org, id.name, id.version]
  }

  /** `csv_row`. */
  function Row(
    recordType: string, view: string, digest: string, source: Identity, to: Identity, requirement: string, kind: string,
    optional: string, defaultFeatures: string, target: string, features: string, artifactDigest: string,
    completeness: string, schema: string): (row: seq<string>)
    ensures |row| == 20 && row[0] == recordType && row[1] == view
    ensures row[3..7] == Cells(source) && row[7..11] == Cells(to)
  {
    [recordType, view, digest, source.registryId, source.org, source.name, source.version,
     to.registryId, to.org, to.name, to.version, requirement, kind, optional, defaultFeatures,
     target, features, artifactDigest, completeness, schema]
  }

  function PackageRow(doc: Document, package: Identity): (row: seq<string>)
    ensures |row| == 20
  {
    Row("node", "declared", Blank(doc.digest), package, NOBODY, "", "", "", "", "", "[]", "", "", doc.schema)
  }

  function DependencyRow(doc: Document, package: Identity, d: Dependency): (row: seq<string>)
    ensures |row| == 20
  {
    Row("edge", "declared", Blank(doc.digest), package, Identity(d.registryId, d.org, d.name, ""), d.requirement,
        KindName(d.kind), BoolName(Some(d.optional)), BoolName(Some(d.defaultFeatures)), Blank(d.target),
        FeaturesJson(d.features), "", "", doc.schema)
  }

  function RootRow(doc: Document, c: Completeness, root: Identity): (row: seq<string>)
    ensures |row| == 20
  {
    Row("root", "resolved", Blank(doc.digest), root, NOBODY, "", "", "", "", "", "[]", "", CompletenessName(c), doc.schema)
  }

  function NodeRow(doc: Document, c: Completeness, node: Node): (row: seq<string>)
    ensures |row| == 20
  {
    Row("node", "resolved", Blank(doc.digest), node.id, NOBODY, "", "", "", "", "", FeaturesJson(node.features),
        Blank(node.artifactDigest), CompletenessName(c), doc.schema)
  }

  function EdgeRow(doc: Document, c: Completeness, edge: Edge): (row: seq<string>)
    ensures |row| == 20
  {
    Row("edge", "resolved", Blank(doc.digest), edge.source, edge.to, Blank(edge.requirement), KindName(edge.kind),
        BoolName(Some(edge.optional)), "", Blank(edge.target), FeaturesJson(edge.features), "", CompletenessName(c), doc.schema)
  }

  // ---- Rows ----

  function Map<T>(s: seq<T>, f: T -> seq<string>): (r: seq<seq<string>>)
    ensures |r| == |s| && forall i :: 0 <= i < |s| ==> r[i] == f(s[i])
  {
    seq(|s|, i requires 0 <= i < |s| => f(s[i]))
  }

  function GraphRows(doc: Document): (rows: seq<seq<string>>)
    ensures forall i :: 0 <= i < |rows| ==> |rows[i]| == 20
  {
    match doc.graph
    case Declared(package, dependencies) =>
      [PackageRow(doc, package)] + Map(dependencies, d => DependencyRow(doc, package, d))
    case Resolved(c, roots, nodes, edges) =>
      Map(roots, r => RootRow(doc, c, r)) + Map(nodes, n => NodeRow(doc, c, n)) + Map(edges, e => EdgeRow(doc, c, e))
  }

  /** Every record has a cell for each column of the header. */
  function Rows(doc: Document): (rows: seq<seq<string>>)
    ensures forall i :: 0 <= i < |rows| ==> |rows[i]| == |HEADER| == 20
  {
    [HEADER] + GraphRows(doc)
  }

  // ---- Writing ----

  /** Append records in order, as long as they fit; `done` is all there is. */
  method WriteRecords(output: TextBuffer, records: seq<seq<string>>, limit: nat) returns (ok: bool)
    requires forall i :: 0 <= i < |records| ==> records[i] != []
    requires ByteLen(output.text) <= limit
    modifies output
    ensures ByteLen(output.text) <= limit
    ensures ok <==> ByteLen(old(output.text) + FileText(records)) <= limit
    ensures ok ==> output.text == old(output.text) + FileText(records)
  {
    hide ByteLen, RecordText;
    ghost var target := output.text + FileText(records);
    var i := 0;
    while i < |records|
      invariant 0 <= i <= |records|
      invariant output.text + FileText(records[i..]) == target
      invariant ByteLen(output.text) <= limit
    {
      assert records[i..][1..] == records[i + 1..];
      TargetHolds(output.text, RecordText(records[i]), FileText(records[i + 1..]), target);
      ok := CsvRecord(output, records[i], limit);
      if !ok {
        return false;
      }
      i := i + 1;
    }
    assert output.text == target;
    return true;
  }

  /** `encode`: all rows or, past the limit, nothing. What is written reads back to
      the rows, cell by cell. */
  method Encode(document: Document, limit: nat) returns (text: Option<string>)
    ensures text.Some? <==> ByteLen(FileText(Rows(document))) <= limit
    ensures text.Some? ==>
              text.value == FileText(Rows(document)) && ReadFile(text.value) == Some(NeutralRecords(Rows(document)))
  {
    hide ByteLen, FileText, ReadFile, Rows;
    EmptyIsShort();
    var output := new TextBuffer();
    var ok := WriteRecords(output, Rows(document), limit);
    assert "" + FileText(Rows(document)) == FileText(Rows(document));
    if !ok {
      return None;
    }
    FileReadsBack(Rows(document));
    return Some(output.text);
  }

  lemma EmptyIsShort()
    ensures ByteLen("") == 0
  {
  }

  // ---- What the rows say of the document ----

  /** The list of strings reads back from its JSON. */
  lemma {:induction false} FeatureListDecides(a: seq<string>, b: seq<string>)
    requires FeatureList(a) == FeatureList(b)
    ensures a == b
    decreases |a|
  {
    hide JsonString, ReadString;
    if a == [] || b == [] {
      FirstQuote(a);
      FirstQuote(b);
    } else {
      var restA := if |a| == 1 then "" else "," + FeatureList(a[1..]);
      var restB := if |b| == 1 then "" else "," + FeatureList(b[1..]);
      StringReadsBack(a[0], restA);
      StringReadsBack(b[0], restB);
      assert a[0] == b[0] && restA == restB;
      if |a| > 1 && |b| > 1 {
        assert restA[1..] == FeatureList(a[1..]) && restB[1..] == FeatureList(b[1..]);
        FeatureListDecides(a[1..], b[1..]);
      }
      assert a == [a[0]] + a[1..] && b == [b[0]] + b[1..];
    }
  }

  lemma FirstQuote(features: seq<string>)
    ensures features != [] ==> FeatureList(features) != ""
  {
  }

  lemma FeaturesDecide(a: seq<string>, b: seq<string>)
    ensures FeaturesJson(a) == FeaturesJson(b) <==> a == b
  {
    if FeaturesJson(a) == FeaturesJson(b) {
      assert FeatureList(a) == FeaturesJson(a)[1..|FeaturesJson(a)| - 1];
      assert FeatureList(b) == FeaturesJson(b)[1..|FeaturesJson(b)| - 1];
      FeatureListDecides(a, b);
    }
  }

  lemma NamesDecide(k: Kind, l: Kind, c: Completeness, d: Completeness, x: bool, y: bool)
    ensures KindName(k) == KindName(l) <==> k == l
    ensures CompletenessName(c) == CompletenessName(d) <==> c == d
    ensures BoolName(Some(x)) == BoolName(Some(y)) <==> x == y
  {
    assert KindName(k)[0] == KindName(l)[0] <==> k == l;
    assert CompletenessName(c)[0] == CompletenessName(d)[0] <==> c == d;
    assert BoolName(Some(x))[0] == BoolName(Some(y))[0] <==> x == y;
  }

  /** Equal but for a missing text, which is written like an empty one. */
  predicate DependenciesAlike(a: Dependency, b: Dependency) {
    a.(target := None) == b.(target := None) && Blank(a.target) == Blank(b.target)
  }

  predicate NodesAlike(a: Node, b: Node) {
    a.(artifactDigest := None) == b.(artifactDigest := None) && Blank(a.artifactDigest) == Blank(b.artifactDigest)
  }

  predicate EdgesAlike(a: Edge, b: Edge) {
    && a.(requirement := None, target := None) == b.(requirement := None, target := None)
    && Blank(a.requirement) == Blank(b.requirement) && Blank(a.target) == Blank(b.target)
  }

  predicate GraphsAlike(a: Graph, b: Graph) {
    if a.Declared? then
      && b.Declared? && a.package == b.package && |a.dependencies| == |b.dependencies|
      && forall i :: 0 <= i < |a.dependencies| ==> DependenciesAlike(a.dependencies[i], b.dependencies[i])
    else
      && b.Resolved? && a.roots == b.roots && |a.nodes| == |b.nodes| && |a.edges| == |b.edges|
      && (forall i :: 0 <= i < |a.nodes| ==> NodesAlike(a.nodes[i], b.nodes[i]))
      && (forall i :: 0 <= i < |a.edges| ==> EdgesAlike(a.edges[i], b.edges[i]))
      && (HasRows(a) ==> a.completeness == b.completeness)
  }

  /** Only a resolved graph can have no row of its own. */
  predicate HasRows(g: Graph) {
    g.Declared? || g.roots != [] || g.nodes != [] || g.edges != []
  }

  predicate DocumentsAlike(a: Document, b: Document) {
    GraphsAlike(a.graph, b.graph) && (HasRows(a.graph) ==> a.schema == b.schema && Blank(a.digest) == Blank(b.digest))
  }

  /** Two rows agree cell by cell. */
  lemma RowIff(x: seq<string>, y: seq<string>)
    requires |x| == |y| == 20
    ensures x == y <==> && x[0] == y[0] && x[1] == y[1] && x[2] == y[2] && x[3..7] == y[3..7] && x[7..11] == y[7..11]
                        && x[11] == y[11] && x[12] == y[12] && x[13] == y[13] && x[14] == y[14] && x[15] == y[15]
                        && x[16] == y[16] && x[17] == y[17] && x[18] == y[18] && x[19] == y[19]
  {
    if x[3..7] == y[3..7] && x[7..11] == y[7..11] {
      assert forall i :: 3 <= i < 7 ==> x[i] == x[3..7][i - 3] && y[i] == y[3..7][i - 3];
      assert forall i :: 7 <= i < 11 ==> x[i] == x[7..11][i - 7] && y[i] == y[7..11][i - 7];
    }
  }

  lemma CellsDecide(a: Identity, b: Identity)
    ensures Cells(a) == Cells(b) <==> a == b
  {
    if Cells(a) == Cells(b) {
      assert Cells(a)[0] == Cells(b)[0] && Cells(a)[1] == Cells(b)[1] && Cells(a)[2] == Cells(b)[2] && Cells(a)[3] == Cells(b)[3];
    }
  }

  predicate HeadsAlike(a: Document, b: Document) {
    a.schema == b.schema && Blank(a.digest) == Blank(b.digest)
  }

  lemma PackageRowIff(a: Document, b: Document, p: Identity, q: Identity)
    ensures PackageRow(a, p) == PackageRow(b, q) <==> HeadsAlike(a, b) && p == q
  {
    var x, y := PackageRow(a, p), PackageRow(b, q);
    RowIff(x, y);
    CellsDecide(p, q);
  }

  lemma DependencyRowIff(a: Document, b: Document, p: Identity, q: Identity, d: Dependency, e: Dependency)
    ensures DependencyRow(a, p, d) == DependencyRow(b, q, e) <==> HeadsAlike(a, b) && p == q && DependenciesAlike(d, e)
  {
    hide FeaturesJson, KindName, BoolName, Blank;
    var x, y := DependencyRow(a, p, d), DependencyRow(b, q, e);
    var to, other := Identity(d.registryId, d.org, d.name, ""), Identity(e.registryId, e.org, e.name, "");
    RowIff(x, y);
    CellsDecide(p, q);
    CellsDecide(to, other);
    NamesDecide(d.kind, e.kind, Complete, Complete, d.optional, e.optional);
    NamesDecide(d.kind, e.kind, Complete, Complete, d.defaultFeatures, e.defaultFeatures);
    FeaturesDecide(d.features, e.features);
  }

  lemma RootRowIff(a: Document, b: Document, c: Completeness, d: Completeness, p: Identity, q: Identity)
    ensures RootRow(a, c, p) == RootRow(b, d, q) <==> HeadsAlike(a, b) && c == d && p == q
  {
    hide CompletenessName, Blank;
    var x, y := RootRow(a, c, p), RootRow(b, d, q);
    RowIff(x, y);
    CellsDecide(p, q);
    NamesDecide(Runtime, Runtime, c, d, true, true);
  }

  lemma NodeRowIff(a: Document, b: Document, c: Completeness, d: Completeness, n: Node, m: Node)
    ensures NodeRow(a, c, n) == NodeRow(b, d, m) <==> HeadsAlike(a, b) && c == d && NodesAlike(n, m)
  {
    hide FeaturesJson, CompletenessName, Blank;
    var x, y := NodeRow(a, c, n), NodeRow(b, d, m);
    RowIff(x, y);
    CellsDecide(n.id, m.id);
    NamesDecide(Runtime, Runtime, c, d, true, true);
    FeaturesDecide(n.features, m.features);
  }

  lemma EdgeRowIff(a: Document, b: Document, c: Completeness, d: Completeness, e: Edge, f: Edge)
    ensures EdgeRow(a, c, e) == EdgeRow(b, d, f) <==> HeadsAlike(a, b) && c == d && EdgesAlike(e, f)
  {
    hide FeaturesJson, KindName, BoolName, CompletenessName, Blank;
    var x, y := EdgeRow(a, c, e), EdgeRow(b, d, f);
    RowIff(x, y);
    CellsDecide(e.source, f.source);
    CellsDecide(e.to, f.to);
    NamesDecide(e.kind, f.kind, c, d, e.optional, f.optional);
    FeaturesDecide(e.features, f.features);
  }

  predicate AllOfType(rows: seq<seq<string>>, recordType: string) {
    forall i :: 0 <= i < |rows| ==> rows[i] != [] && rows[i][0] == recordType
  }

  /** Record types tell the three lists of a resolved graph apart. */
  lemma ListsDecide(
    r: seq<seq<string>>, n: seq<seq<string>>, e: seq<seq<string>>, r': seq<seq<string>>, n': seq<seq<string>>, e': seq<seq<string>>)
    requires AllOfType(r, "root") && AllOfType(n, "node") && AllOfType(e, "edge")
    requires AllOfType(r', "root") && AllOfType(n', "node") && AllOfType(e', "edge")
    ensures r + n + e == r' + n' + e' <==> r == r' && n == n' && e == e'
  {
    var x, y := r + n + e, r' + n' + e';
    if x == y {
      assert "root"[0] != "node"[0] && "root"[0] != "edge"[0] && "node"[0] != "edge"[0];
      assert forall i :: 0 <= i < |x| ==> (x[i][0] == "root" <==> i < |r|) && (x[i][0] == "edge" <==> i >= |r| + |n|);
      assert forall i :: 0 <= i < |y| ==> (y[i][0] == "root" <==> i < |r'|) && (y[i][0] == "edge" <==> i >= |r'| + |n'|);
      assert |r| < |x| ==> x[|r|][0] != "root";
      assert |r'| < |y| ==> y[|r'|][0] != "root";
      assert |r| == |r'|;
      assert |r| + |n| < |x| ==> x[|r| + |n|][0] == "edge";
      assert |r'| + |n'| < |y| ==> y[|r'| + |n'|][0] == "edge";
      assert |n| == |n'|;
      assert r == x[..|r|] && n == x[|r|..|r| + |n|] && e == x[|r| + |n|..];
      assert r' == y[..|r|] && n' == y[|r|..|r| + |n|] && e' == y[|r| + |n|..];
    }
  }

  lemma MapsIff<T>(s: seq<T>, t: seq<T>, f: T -> seq<string>, g: T -> seq<string>)
    ensures Map(s, f) == Map(t, g) <==> |s| == |t| && forall i :: 0 <= i < |s| ==> f(s[i]) == g(t[i])
  {
    if Map(s, f) == Map(t, g) {
      forall i | 0 <= i < |s|
        ensures f(s[i]) == g(t[i])
      {
        assert Map(s, f)[i] == Map(t, g)[i];
      }
    }
  }

  lemma ConsIff(x: seq<string>, y: seq<string>, more: seq<seq<string>>, others: seq<seq<string>>)
    ensures [x] + more == [y] + others <==> x == y && more == others
  {
    if [x] + more == [y] + others {
      assert ([x] + more)[0] == ([y] + others)[0];
      assert more == ([x] + more)[1..] && others == ([y] + others)[1..];
    }
  }

  lemma DeclaredRowsIff(a: Document, b: Document)
    requires a.graph.Declared? && b.graph.Declared?
    ensures GraphRows(a) == GraphRows(b) <==> DocumentsAlike(a, b)
  {
    hide PackageRow, DependencyRow, DependenciesAlike, Blank, Map;
    var p, q, ds, es := a.graph.package, b.graph.package, a.graph.dependencies, b.graph.dependencies;
    var f, g := (d: Dependency) => DependencyRow(a, p, d), (d: Dependency) => DependencyRow(b, q, d);
    PackageRowIff(a, b, p, q);
    ConsIff(PackageRow(a, p), PackageRow(b, q), Map(ds, f), Map(es, g));
    MapsIff(ds, es, f, g);
    forall i | 0 <= i < |ds| && i < |es|
      ensures f(ds[i]) == g(es[i]) <==> HeadsAlike(a, b) && p == q && DependenciesAlike(ds[i], es[i])
    {
      DependencyRowIff(a, b, p, q, ds[i], es[i]);
    }
    DeclaredRows(a);
    DeclaredRows(b);
  }

  lemma DeclaredRows(doc: Document)
    requires doc.graph.Declared?
    ensures GraphRows(doc)
         == [PackageRow(doc, doc.graph.package)]
            + Map(doc.graph.dependencies, (d: Dependency) => DependencyRow(doc, doc.graph.package, d))
  {
    hide PackageRow, DependencyRow;
  }

  lemma ResolvedRows(doc: Document)
    requires doc.graph.Resolved?
    ensures
      var c := doc.graph.completeness;
      var roots := Map(doc.graph.roots, (r: Identity) => RootRow(doc, c, r));
      var nodes := Map(doc.graph.nodes, (n: Node) => NodeRow(doc, c, n));
      var edges := Map(doc.graph.edges, (e: Edge) => EdgeRow(doc, c, e));
      && GraphRows(doc) == roots + nodes + edges
      && AllOfType(roots, "root") && AllOfType(nodes, "node") && AllOfType(edges, "edge")
  {
    hide Row, FeaturesJson, KindName, BoolName, Blank, CompletenessName;
  }

  lemma ResolvedRowsIff(a: Document, b: Document)
    requires a.graph.Resolved? && b.graph.Resolved?
    ensures GraphRows(a) == GraphRows(b) <==> DocumentsAlike(a, b)
  {
    hide RootRow, NodeRow, EdgeRow, NodesAlike, EdgesAlike, Blank, Map, GraphRows;
    var x, y, c, d := a.graph, b.graph, a.graph.completeness, b.graph.completeness;
    var r, r' := (p: Identity) => RootRow(a, c, p), (p: Identity) => RootRow(b, d, p);
    var n, n' := (m: Node) => NodeRow(a, c, m), (m: Node) => NodeRow(b, d, m);
    var e, e' := (f: Edge) => EdgeRow(a, c, f), (f: Edge) => EdgeRow(b, d, f);
    ResolvedRows(a);
    ResolvedRows(b);
    ListsDecide(Map(x.roots, r), Map(x.nodes, n), Map(x.edges, e), Map(y.roots, r'), Map(y.nodes, n'), Map(y.edges, e'));
    MapsIff(x.roots, y.roots, r, r');
    MapsIff(x.nodes, y.nodes, n, n');
    MapsIff(x.edges, y.edges, e, e');
    forall i | 0 <= i < |x.roots| && i < |y.roots|
      ensures r(x.roots[i]) == r'(y.roots[i]) <==> HeadsAlike(a, b) && c == d && x.roots[i] == y.roots[i]
    {
      RootRowIff(a, b, c, d, x.roots[i], y.roots[i]);
    }
    forall i | 0 <= i < |x.nodes| && i < |y.nodes|
      ensures n(x.nodes[i]) == n'(y.nodes[i]) <==> HeadsAlike(a, b) && c == d && NodesAlike(x.nodes[i], y.nodes[i])
    {
      NodeRowIff(a, b, c, d, x.nodes[i], y.nodes[i]);
    }
    forall i | 0 <= i < |x.edges| && i < |y.edges|
      ensures e(x.edges[i]) == e'(y.edges[i]) <==> HeadsAlike(a, b) && c == d && EdgesAlike(x.edges[i], y.edges[i])
    {
      EdgeRowIff(a, b, c, d, x.edges[i], y.edges[i]);
    }
    if GraphRows(a) == GraphRows(b) {
      if x.roots != [] {
        assert r(x.roots[0]) == r'(y.roots[0]);
      } else if x.nodes != [] {
        assert n(x.nodes[0]) == n'(y.nodes[0]);
      } else if x.edges != [] {
        assert e(x.edges[0]) == e'(y.edges[0]);
      }
      assert forall i :: 0 <= i < |x.roots| ==> r(x.roots[i]) == r'(y.roots[i]);
    }
  }

  /** The two views never share a row, and a declared graph has one. */
  lemma ViewsDiffer(a: Document, b: Document)
    requires a.graph.Declared? && b.graph.Resolved?
    ensures GraphRows(a) != GraphRows(b)
  {
    hide Row, FeaturesJson, KindName, BoolName, Blank, CompletenessName;
    assert GraphRows(a)[0][1] == "declared" && "declared"[0] != "resolved"[0];
    assert GraphRows(b) != [] ==> GraphRows(b)[0][1] == "resolved";
  }

  /** Two documents have the same rows exactly when they are alike: the same view
      and the same entries in the same order, a missing text counting as an
      empty one. Of a resolved graph without entries nothing is written. */
  lemma RowsDecideIff(a: Document, b: Document)
    ensures Rows(a) == Rows(b) <==> DocumentsAlike(a, b)
  {
    hide GraphRows, DependenciesAlike, NodesAlike, EdgesAlike;
    ConsIff(HEADER, HEADER, GraphRows(a), GraphRows(b));
    if a.graph.Declared? && b.graph.Declared? {
      DeclaredRowsIff(a, b);
    } else if a.graph.Resolved? && b.graph.Resolved? {
      ResolvedRowsIff(a, b);
    } else if a.graph.Declared? {
      ViewsDiffer(a, b);
    } else {
      ViewsDiffer(b, a);
    }
  }

  // ---- Cells by column ----

  predicate IsColumn(at: int, name: string) {
    0 <= at < |HEADER| && HEADER[at] == name
  }

  /** The columns by name. */
  lemma Columns()
    ensures && IsColumn(0, "record_type") && IsColumn(1, "view") && IsColumn(2, "graph_digest") && IsColumn(3, "from_registry")
            && IsColumn(4, "from_org") && IsColumn(5, "from_name") && IsColumn(6, "from_version") && IsColumn(7, "to_registry")
            && IsColumn(8, "to_org") && IsColumn(9, "to_name") && IsColumn(10, "to_version") && IsColumn(11, "requirement")
            && IsColumn(12, "kind") && IsColumn(13, "optional") && IsColumn(14, "default_features") && IsColumn(15, "target")
            && IsColumn(16, "features_json") && IsColumn(17, "artifact_digest") && IsColumn(18, "completeness")
            && IsColumn(19, "schema")
  {
  }

  /** A column of a row, found by its name in the header. */
  ghost predicate Has(row: seq<string>, name: string, cell: string) {
    exists at :: IsColumn(at, name) && at < |row| && row[at] == cell
  }

  lemma HasAt(row: seq<string>, at: int, name: string)
    requires |row| == 20 && IsColumn(at, name)
    ensures Has(row, name, row[at])
  {
  }

  lemma RowCells(row: seq<string>)
    requires |row| == 20
    ensures && Has(row, "record_type", row[0]) && Has(row, "view", row[1]) && Has(row, "graph_digest", row[2])
            && Has(row, "from_registry", row[3]) && Has(row, "from_org", row[4]) && Has(row, "from_name", row[5])
            && Has(row, "from_version", row[6]) && Has(row, "to_registry", row[7]) && Has(row, "to_org", row[8])
            && Has(row, "to_name", row[9]) && Has(row, "to_version", row[10]) && Has(row, "requirement", row[11])
            && Has(row, "kind", row[12]) && Has(row, "optional", row[13]) && Has(row, "default_features", row[14])
            && Has(row, "target", row[15]) && Has(row, "features_json", row[16]) && Has(row, "artifact_digest", row[17])
            && Has(row, "completeness", row[18]) && Has(row, "schema", row[19])
  {
    hide IsColumn, Has;
    Columns();
    HasAt(row, 0, "record_type");
    HasAt(row, 1, "view");
    HasAt(row, 2, "graph_digest");
    HasAt(row, 3, "from_registry");
    HasAt(row, 4, "from_org");
    HasAt(row, 5, "from_name");
    HasAt(row, 6, "from_version");
    HasAt(row, 7, "to_registry");
    HasAt(row, 8, "to_org");
    HasAt(row, 9, "to_name");
    HasAt(row, 10, "to_version");
    HasAt(row, 11, "requirement");
    HasAt(row, 12, "kind");
    HasAt(row, 13, "optional");
    HasAt(row, 14, "default_features");
    HasAt(row, 15, "target");
    HasAt(row, 16, "features_json");
    HasAt(row, 17, "artifact_digest");
    HasAt(row, 18, "completeness");
    HasAt(row, 19, "schema");
  }

  /** The words used for kinds, completeness and flags. */
  lemma Words(kind: Kind, completeness: Completeness)
    ensures KindName(kind) == "runtime" <==> kind.Runtime?
    ensures KindName(kind) == "build" <==> kind.Build?
    ensures KindName(kind) == "development" <==> kind.Development?
    ensures KindName(kind) == "peer" <==> kind.Peer?
    ensures KindName(kind) == "tooling" <==> kind.Tooling?
    ensures CompletenessName(completeness) == "complete" <==> completeness.Complete?
    ensures CompletenessName(completeness) == "projected" <==> completeness.Projected?
  {
    assert KindName(kind)[0] in {'r', 'b', 'd', 'p', 't'};
    assert CompletenessName(completeness)[0] in {'c', 'p'};
  }

  /** What stands under each heading in the row of a declared dependency. */
  lemma DependencyCells(doc: Document, package: Identity, d: Dependency)
    ensures
      var row := DependencyRow(doc, package, d);
      && Has(row, "record_type", "edge") && Has(row, "view", "declared")
      && Has(row, "graph_digest", if doc.digest.Some? then doc.digest.value else "")
      && Has(row, "from_registry", package.registryId) && Has(row, "from_org", package.org)
      && Has(row, "from_name", package.name) && Has(row, "from_version", package.version)
      && Has(row, "to_registry", d.registryId) && Has(row, "to_org", d.org) && Has(row, "to_name", d.name)
      && Has(row, "to_version", "") && Has(row, "requirement", d.requirement) && Has(row, "kind", KindName(d.kind))
      && Has(row, "optional", if d.optional then "true" else "false")
      && Has(row, "default_features", if d.defaultFeatures then "true" else "false")
      && Has(row, "target", if d.target.Some? then d.target.value else "")
      && Has(row, "features_json", FeaturesJson(d.features))
      && Has(row, "artifact_digest", "") && Has(row, "completeness", "") && Has(row, "schema", doc.schema)
  {
    hide Has, KindName, FeaturesJson;
    RowCells(DependencyRow(doc, package, d));
  }

  lemma PackageCells(doc: Document, package: Identity)
    ensures
      var row := PackageRow(doc, package);
      && Has(row, "record_type", "node") && Has(row, "view", "declared")
      && Has(row, "graph_digest", if doc.digest.Some? then doc.digest.value else "")
      && Has(row, "from_registry", package.registryId) && Has(row, "from_org", package.org)
      && Has(row, "from_name", package.name) && Has(row, "from_version", package.version)
      && Has(row, "to_registry", "") && Has(row, "to_org", "") && Has(row, "to_name", "") && Has(row, "to_version", "")
      && Has(row, "requirement", "") && Has(row, "kind", "") && Has(row, "optional", "") && Has(row, "default_features", "")
      && Has(row, "target", "") && Has(row, "features_json", "[]") && Has(row, "artifact_digest", "")
      && Has(row, "completeness", "") && Has(row, "schema", doc.schema)
  {
    hide Has;
    RowCells(PackageRow(doc, package));
  }

  lemma RootCells(doc: Document, c: Completeness, root: Identity)
    ensures
      var row := RootRow(doc, c, root);
      && Has(row, "record_type", "root") && Has(row, "view", "resolved")
      && Has(row, "graph_digest", if doc.digest.Some? then doc.digest.value else "")
      && Has(row, "from_registry", root.registryId) && Has(row, "from_org", root.org)
      && Has(row, "from_name", root.name) && Has(row, "from_version", root.version)
      && Has(row, "to_registry", "") && Has(row, "to_org", "") && Has(row, "to_name", "") && Has(row, "to_version", "")
      && Has(row, "requirement", "") && Has(row, "kind", "") && Has(row, "optional", "") && Has(row, "default_features", "")
      && Has(row, "target", "") && Has(row, "features_json", "[]") && Has(row, "artifact_digest", "")
      && Has(row, "completeness", CompletenessName(c)) && Has(row, "schema", doc.schema)
  {
    hide Has, CompletenessName;
    RowCells(RootRow(doc, c, root));
  }

  lemma NodeCells(doc: Document, c: Completeness, node: Node)
    ensures
      var row := NodeRow(doc, c, node);
      && Has(row, "record_type", "node") && Has(row, "view", "resolved")
      && Has(row, "graph_digest", if doc.digest.Some? then doc.digest.value else "")
      && Has(row, "from_registry", node.id.registryId) && Has(row, "from_org", node.id.org)
      && Has(row, "from_name", node.id.name) && Has(row, "from_version", node.id.version)
      && Has(row, "to_registry", "") && Has(row, "to_org", "") && Has(row, "to_name", "") && Has(row, "to_version", "")
      && Has(row, "requirement", "") && Has(row, "kind", "") && Has(row, "optional", "") && Has(row, "default_features", "")
      && Has(row, "target", "") && Has(row, "features_json", FeaturesJson(node.features))
      && Has(row, "artifact_digest", if node.artifactDigest.Some? then node.artifactDigest.value else "")
      && Has(row, "completeness", CompletenessName(c)) && Has(row, "schema", doc.schema)
  {
    hide Has, FeaturesJson, CompletenessName;
    RowCells(NodeRow(doc, c, node));
  }

  lemma EdgeCells(doc: Document, c: Completeness, edge: Edge)
    ensures
      var row := EdgeRow(doc, c, edge);
      && Has(row, "record_type", "edge") && Has(row, "view", "resolved")
      && Has(row, "graph_digest", if doc.digest.Some? then doc.digest.value else "")
      && Has(row, "from_registry", edge.source.registryId) && Has(row, "from_org", edge.source.org)
      && Has(row, "from_name", edge.source.name) && Has(row, "from_version", edge.source.version)
      && Has(row, "to_registry", edge.to.registryId) && Has(row, "to_org", edge.to.org)
      && Has(row, "to_name", edge.to.name) && Has(row, "to_version", edge.to.version)
      && Has(row, "requirement", if edge.requirement.Some? then edge.requirement.value else "")
      && Has(row, "kind", KindName(edge.kind)) && Has(row, "optional", if edge.optional then "true" else "false")
      && Has(row, "default_features", "") && Has(row, "target", if edge.target.Some? then edge.target.value else "")
      && Has(row, "features_json", FeaturesJson(edge.features)) && Has(row, "artifact_digest", "")
      && Has(row, "completeness", CompletenessName(c)) && Has(row, "schema", doc.schema)
  {
    hide Has, KindName, FeaturesJson, CompletenessName;
    RowCells(EdgeRow(doc, c, edge));
  }
}

/**
 * The RDF/XML generator: from the list of paths to create, the uid of the
 * root parent, the path-to-code map and the map from a path to the uid of
 * its virtual parent, the CIM document of the hierarchy.
 *
 * Parent-child edges are rebuilt from the membership of consecutive
 * prefixes; every distinct path becomes one element, `cim:AssetContainer`
 * for roots and for nodes with a child, `me:GenericPSR` for the others,
 * emitted in the order in which paths first occur, between a fixed prolog
 * and the closing `</rdf:RDF>`.
 */
module XmlGenerator {
  import opened Wrappers
  import opened Paths

  /** The configuration values the generator reads at construction. */
  datatype Config = Config(namespaces: seq<(string, string)>, modelId: string,
                           modelCreated: string, modelVersion: string, modelName: string)

  /**
   * What `generate` works from besides its configuration. `uuid` stands for
   * the uuid4 drawn for each node.
   */
  datatype Inputs = Inputs(paths: seq<Path>, parentUid: string, cckMap: map<Path, string>,
                           parentUidMap: map<Path, string>, uuid: Path -> string)

  /** `NoData`: the ValueError for an empty path list; `EmptyPath`: the IndexError on `()[-1]`. */
  datatype GenError = NoData | EmptyPath

  // ---------------------------------------------------------------------
  // Node ids

  /** The id of a node: `#_` followed by the uuid drawn for it. */
  function GenerateId(uuid: Path -> string, p: Path): string {
    "#_" + uuid(p)
  }

  /** Every id carries the `#_` prefix, and distinct uuids give distinct ids. */
  lemma GenerateIdShape(uuid: Path -> string, p: Path, p': Path)
    ensures |GenerateId(uuid, p)| >= 2 && GenerateId(uuid, p)[..2] == "#_"
    ensures GenerateId(uuid, p) == GenerateId(uuid, p') ==> uuid(p) == uuid(p')
  {
    var id, id' := GenerateId(uuid, p), GenerateId(uuid, p');
    assert id[2..] == uuid(p) && id'[2..] == uuid(p');
  }

  /** The uuids drawn for distinct paths differ. */
  predicate DistinctIds(inp: Inputs) {
    forall p, q :: p in inp.paths && q in inp.paths && inp.uuid(p) == inp.uuid(q) ==> p == q
  }

  /** The map from every path to its id (`id_map`). */
  function IdMap(inp: Inputs): map<Path, string> {
    map p | p in inp.paths :: GenerateId(inp.uuid, p)
  }

  // ---------------------------------------------------------------------
  // Edge reconstruction

  /** `children_map` (each list in insertion order) and `parent_map`. */
  datatype Tree = Tree(children: map<Path, seq<Path>>, parent: map<Path, Path>)

  /** Records the edge from `parent` to `child` when both are among the paths. */
  function EdgeStep(t: Tree, paths: seq<Path>, parent: Path, child: Path): Tree {
    if parent in paths && child in paths then
      var kids := if parent in t.children then t.children[parent] else [];
      Tree(t.children[parent := if child in kids then kids else kids + [child]],
           t.parent[child := parent])
    else t
  }

  /** `t` with the edges between consecutive prefixes of `path` up to its prefix of length `n`. */
  function PathEdges(t: Tree, paths: seq<Path>, path: Path, n: nat): Tree
    requires n <= 1 || n <= |path|
  {
    if n <= 1 then t
    else EdgeStep(PathEdges(t, paths, path, n - 1), paths, path[..n - 1], path[..n])
  }

  /** The tree after the first `k` paths have been walked. */
  function TreeOf(paths: seq<Path>, k: nat): Tree
    requires k <= |paths|
  {
    if k == 0 then Tree(map[], map[])
    else
      var path := paths[k - 1];
      PathEdges(TreeOf(paths, k - 1), paths, path, |path|)
  }

  function Edges(paths: seq<Path>): Tree {
    TreeOf(paths, |paths|)
  }

  /** `c` is a path whose parent path, `c` without its last segment, is also a path. */
  predicate IsEdge(paths: seq<Path>, parent: Path, c: Path) {
    c in paths && |c| >= 2 && parent == c[..|c| - 1] && parent in paths
  }

  /**
   * The children lists hold exactly the paths one segment below their key,
   * each once and never empty; the parent map sends exactly the paths whose
   * parent path is a path to that parent path.
   */
  ghost predicate ExactTree(t: Tree, paths: seq<Path>) {
    (forall p :: p in t.children ==> t.children[p] != [] && NoDups(t.children[p]))
    && (forall p, c :: p in t.children && c in t.children[p] ==> IsEdge(paths, p, c))
    && (forall p, c :: IsEdge(paths, p, c) ==> p in t.children && c in t.children[p])
    && (forall c :: c in t.parent <==> c in paths && |c| >= 2 && c[..|c| - 1] in paths)
    && (forall c :: c in t.parent ==> t.parent[c] == c[..|c| - 1])
  }

  /** The nested loops that fill `children_map` and `parent_map`. */
  method ReconstructEdges(paths: seq<Path>) returns (tree: Tree)
    ensures tree == Edges(paths)
  {
    tree := Tree(map[], map[]);
    for j := 0 to |paths|
      invariant tree == TreeOf(paths, j)
    {
      var path := paths[j];
      ghost var before := tree;
      var i := 1;
      while i < |path|
        invariant 1 <= i && (i == 1 || i <= |path|)
        invariant tree == PathEdges(before, paths, path, i)
      {
        var parent := path[..i];
        var child := path[..i + 1];
        if parent in paths && child in paths {
          var kids := if parent in tree.children then tree.children[parent] else [];
          if child !in kids {
            kids := kids + [child];
          }
          tree := Tree(tree.children[parent := kids], tree.parent[child := parent]);
        }
        i := i + 1;
      }
    }
  }

  // ---------------------------------------------------------------------
  // One element per node

  datatype Category = AssetContainer | GenericPSR

  function Tag(c: Category): string {
    match c
    case AssetContainer => "cim:AssetContainer"
    case GenericPSR => "me:GenericPSR"
  }

  /** A root is a container; any other node is a container exactly when it has a child. */
  function CategoryOf(t: Tree, p: Path): Category {
    if |p| == 1 then AssetContainer
    else if p !in t.children || t.children[p] == [] then GenericPSR
    else AssetContainer
  }

  /** The `ParentObject` reference, first matching rule wins. */
  function ParentRef(inp: Inputs, t: Tree, p: Path): string {
    if |p| == 1 then inp.parentUid
    else if p in inp.parentUidMap then "#_" + inp.parentUidMap[p]
    else if p in t.parent && t.parent[p] in inp.paths then GenerateId(inp.uuid, t.parent[p])
    else inp.parentUid
  }

  /** The inventory code of a node, when it has a non-empty one. */
  function Code(inp: Inputs, p: Path): Option<string> {
    if p in inp.cckMap && inp.cckMap[p] != "" then Some(inp.cckMap[p]) else None
  }

  /** The children that get a link: those that have an id, skipping an id already linked. */
  function LinkedChildren(kids: seq<Path>, paths: seq<Path>, uuid: Path -> string): seq<Path> {
    if kids == [] then []
    else
      var kept := LinkedChildren(kids[..|kids| - 1], paths, uuid);
      var c := kids[|kids| - 1];
      if c in paths && GenerateId(uuid, c) !in Ids(kept, uuid) then kept + [c] else kept
  }

  function Ids(ps: seq<Path>, uuid: Path -> string): (ids: seq<string>)
    ensures |ids| == |ps|
  {
    if ps == [] then [] else Ids(ps[..|ps| - 1], uuid) + [GenerateId(uuid, ps[|ps| - 1])]
  }

  /** The children linked from node `p`: none unless it is a container. */
  function LinkedKids(inp: Inputs, t: Tree, p: Path): seq<Path> {
    if CategoryOf(t, p) == AssetContainer && p in t.children
    then LinkedChildren(t.children[p], inp.paths, inp.uuid)
    else []
  }

  /** The content of one emitted element. */
  datatype Element = Element(category: Category, about: string, name: string, parentRef: string,
                             code: Option<string>, childRefs: seq<string>)

  function ElementOf(inp: Inputs, t: Tree, p: Path): Element
    requires p != []
  {
    Element(CategoryOf(t, p), GenerateId(inp.uuid, p), p[|p| - 1], ParentRef(inp, t, p),
            Code(inp, p), Ids(LinkedKids(inp, t, p), inp.uuid))
  }

  /** The elements of the nodes in `order`. */
  function Elements(inp: Inputs, t: Tree, order: seq<Path>): (es: seq<Element>)
    requires [] !in order
    ensures |es| == |order|
  {
    seq(|order|, i requires 0 <= i < |order| => ElementOf(inp, t, order[i]))
  }

  // ---------------------------------------------------------------------
  // Rendering

  function OpenLine(tag: string, about: string): string {
    "  <" + tag + " rdf:about=\"" + about + "\">"
  }

  function NameLine(name: string): string {
    "    <cim:IdentifiedObject.name>" + name + "</cim:IdentifiedObject.name>"
  }

  function ParentLine(ref: string): string {
    "    <me:IdentifiedObject.ParentObject rdf:resource=\"" + ref + "\" />"
  }

  /** The second link to the parent, named after the element's category. */
  function AssetLine(c: Category, ref: string): string {
    match c
    case AssetContainer => "    <cim:Asset.AssetContainer rdf:resource=\"" + ref + "\" />"
    case GenericPSR => "    <cim:PowerSystemResource.Assets rdf:resource=\"" + ref + "\" />"
  }

  /** The inventory code, in the property its category uses. */
  function CodeLine(c: Category, code: string): string {
    match c
    case AssetContainer => "    <me:IdentifiedObject.mRIDStr>" + code + "</me:IdentifiedObject.mRIDStr>"
    case GenericPSR => "    <rh:PowerSystemResource.ccsCode>" + code + "</rh:PowerSystemResource.ccsCode>"
  }

  function ChildLine(id: string): string {
    "    <me:IdentifiedObject.ChildObjects rdf:resource=\"" + id + "\" />"
  }

  function ChildLines(ids: seq<string>): (ls: seq<string>)
    ensures |ls| == |ids|
  {
    if ids == [] then [] else ChildLines(ids[..|ids| - 1]) + [ChildLine(ids[|ids| - 1])]
  }

  function CloseLine(tag: string): string {
    "  </" + tag + ">"
  }

  function CodeLines(e: Element): seq<string> {
    match e.code
    case Some(code) => [CodeLine(e.category, code)]
    case None => []
  }

  function Render(e: Element): seq<string> {
    [OpenLine(Tag(e.category), e.about), NameLine(e.name), ParentLine(e.parentRef),
     AssetLine(e.category, e.parentRef)]
    + CodeLines(e) + ChildLines(e.childRefs) + [CloseLine(Tag(e.category))]
  }

  function RenderAll(es: seq<Element>): seq<string> {
    if es == [] then [] else RenderAll(es[..|es| - 1]) + Render(es[|es| - 1])
  }

  // ---------------------------------------------------------------------
  // The document

  const Declarations: seq<string> :=
    ["<?xml version=\"1.0\" encoding=\"utf-8\"?>", "<?iec61970-552 version=\"2.0\"?>", "<?floatExporter 1?>"]

  function NsAttribute(prefix: string, uri: string): string {
    " xmlns:" + prefix + "=\"" + uri + "\""
  }

  function NsAttributes(ns: seq<(string, string)>): string {
    if ns == [] then ""
    else NsAttributes(ns[..|ns| - 1]) + NsAttribute(ns[|ns| - 1].0, ns[|ns| - 1].1)
  }

  function RdfOpen(ns: seq<(string, string)>): string {
    "<rdf:RDF" + NsAttributes(ns) + ">"
  }

  function FullModel(cfg: Config): seq<string> {
    ["  <md:FullModel rdf:about=\"#_" + cfg.modelId + "\">",
     "    <md:Model.created>" + cfg.modelCreated + "</md:Model.created>",
     "    <md:Model.version>" + cfg.modelVersion + "</md:Model.version>",
     "    <me:Model.name>" + cfg.modelName + "</me:Model.name>",
     "  </md:FullModel>"]
  }

  const RdfClose: string := "</rdf:RDF>"

  /** The lines joined by newlines, as `'\n'.join(lines)`. */
  function JoinLines(ls: seq<string>): string {
    if ls == [] then ""
    else if |ls| == 1 then ls[0]
    else JoinLines(ls[..|ls| - 1]) + "\n" + ls[|ls| - 1]
  }

  function DocumentLines(cfg: Config, inp: Inputs): seq<string>
    requires [] !in inp.paths
  {
    assert [] !in Elems(Dedup(inp.paths));
    Declarations + [RdfOpen(cfg.namespaces)] + FullModel(cfg)
    + RenderAll(Elements(inp, Edges(inp.paths), Dedup(inp.paths)))
    + [RdfClose]
  }

  /** What `generate` returns, or the error it raises. */
  function Rendered(cfg: Config, inp: Inputs): Result<string, GenError> {
    if inp.paths == [] then Failure(NoData)
    else if [] in inp.paths then Failure(EmptyPath)
    else Success(JoinLines(DocumentLines(cfg, inp)))
  }

  // ---------------------------------------------------------------------
  // The generator

  /** The opening `rdf:RDF` tag with one `xmlns` attribute per namespace, in order. */
  method OpenRdf(namespaces: seq<(string, string)>) returns (line: string)
    ensures line == RdfOpen(namespaces)
  {
    line := "<rdf:RDF";
    for i := 0 to |namespaces|
      invariant line == "<rdf:RDF" + NsAttributes(namespaces[..i])
    {
      assert namespaces[..i + 1][..i] == namespaces[..i];
      var (prefix, uri) := namespaces[i];
      line := line + NsAttribute(prefix, uri);
    }
    assert namespaces[..|namespaces|] == namespaces;
    line := line + ">";
  }

  /** Only listed children are linked, each a child of the node. */
  lemma {:induction false} LinkedChildrenFrom(kids: seq<Path>, paths: seq<Path>, uuid: Path -> string)
    ensures forall c :: c in LinkedChildren(kids, paths, uuid) ==> c in kids && c in paths
  {
    if kids != [] {
      LinkedChildrenFrom(kids[..|kids| - 1], paths, uuid);
    }
  }

  lemma LinkedChildrenStep(kids: seq<Path>, j: nat, paths: seq<Path>, uuid: Path -> string)
    requires j < |kids|
    ensures var kept := LinkedChildren(kids[..j], paths, uuid);
      var c := kids[j];
      LinkedChildren(kids[..j + 1], paths, uuid)
      == if c in paths && GenerateId(uuid, c) !in Ids(kept, uuid) then kept + [c] else kept
  {
    assert kids[..j + 1][..j] == kids[..j];
  }

  lemma IdsAppend(ps: seq<Path>, c: Path, uuid: Path -> string)
    ensures Ids(ps + [c], uuid) == Ids(ps, uuid) + [GenerateId(uuid, c)]
  {
    assert (ps + [c])[..|ps|] == ps;
  }

  lemma ChildLinesAppend(ids: seq<string>, id: string)
    ensures ChildLines(ids + [id]) == ChildLines(ids) + [ChildLine(id)]
  {
    assert (ids + [id])[..|ids|] == ids;
  }

  /** Linking one more child extends the link lines, the queue and the set of linked ids. */
  lemma LinkStep(lines: seq<string>, q: seq<Path>, kept: seq<Path>, c: Path, uuid: Path -> string)
    ensures lines + ChildLines(Ids(kept + [c], uuid))
      == lines + ChildLines(Ids(kept, uuid)) + [ChildLine(GenerateId(uuid, c))]
    ensures q + (kept + [c]) == q + kept + [c]
    ensures Elems(Ids(kept + [c], uuid)) == Elems(Ids(kept, uuid)) + {GenerateId(uuid, c)}
  {
    IdsAppend(kept, c, uuid);
    ChildLinesAppend(Ids(kept, uuid), GenerateId(uuid, c));
  }

  /**
   * The loop over the children of a container: one link per child that has
   * an id, skipping ids already linked, each linked child put on the queue.
   */
  method AppendChildLinks(lines: seq<string>, q: seq<Path>, kids: seq<Path>, inp: Inputs,
                          idMap: map<Path, string>)
    returns (lines': seq<string>, q': seq<Path>)
    requires idMap == IdMap(inp)
    ensures lines' == lines + ChildLines(Ids(LinkedChildren(kids, inp.paths, inp.uuid), inp.uuid))
    ensures q' == q + LinkedChildren(kids, inp.paths, inp.uuid)
  {
    lines', q' := lines, q;
    var added: set<string> := {};
    for j := 0 to |kids|
      invariant q' == q + LinkedChildren(kids[..j], inp.paths, inp.uuid)
      invariant lines' == lines + ChildLines(Ids(LinkedChildren(kids[..j], inp.paths, inp.uuid), inp.uuid))
      invariant added == Elems(Ids(LinkedChildren(kids[..j], inp.paths, inp.uuid), inp.uuid))
    {
      ghost var kept := LinkedChildren(kids[..j], inp.paths, inp.uuid);
      LinkedChildrenStep(kids, j, inp.paths, inp.uuid);
      var child := kids[j];
      if child in idMap {
        var childId := idMap[child];
        assert child in inp.paths && childId == GenerateId(inp.uuid, child);
        if childId !in added {
          LinkStep(lines, q, kept, child, inp.uuid);
          lines' := lines' + [ChildLine(childId)];
          added := added + {childId};
          q' := q' + [child];
        }
      } else {
        assert child !in inp.paths;
      }
    }
    assert kids[..|kids|] == kids;
  }

  /**
   * The `ParentObject` reference of `current`, by the rules in priority
   * order: a root takes the given parent uid, a path in the virtual-parent
   * map that uid, a path whose parent path is listed the parent's id, and
   * anything else the given parent uid.
   */
  method ResolveParent(inp: Inputs, tree: Tree, idMap: map<Path, string>, current: Path)
    returns (parentResource: string)
    requires idMap == IdMap(inp) && tree == Edges(inp.paths)
    ensures |current| == 1 ==> parentResource == inp.parentUid
    ensures |current| != 1 && current in inp.parentUidMap
      ==> parentResource == "#_" + inp.parentUidMap[current]
    ensures |current| >= 2 && current !in inp.parentUidMap
      && current in inp.paths && current[..|current| - 1] in inp.paths
      ==> parentResource == GenerateId(inp.uuid, current[..|current| - 1])
    ensures |current| >= 2 && current !in inp.parentUidMap
      && !(current in inp.paths && current[..|current| - 1] in inp.paths)
      ==> parentResource == inp.parentUid
    ensures parentResource == ParentRef(inp, tree, current)
  {
    TreeShape(inp.paths);
    if |current| == 1 {
      parentResource := inp.parentUid;
    } else if current in inp.parentUidMap {
      parentResource := "#_" + inp.parentUidMap[current];
    } else if current in tree.parent && tree.parent[current] in idMap {
      parentResource := idMap[tree.parent[current]];
    } else {
      parentResource := inp.parentUid;
    }
  }

  /** The body of the queue loop for a node seen for the first time. */
  method AppendObject(lines: seq<string>, q: seq<Path>, inp: Inputs, tree: Tree,
                      idMap: map<Path, string>, current: Path)
    returns (lines': seq<string>, q': seq<Path>)
    requires current != []
    requires idMap == IdMap(inp) && tree == Edges(inp.paths) && current in inp.paths
    ensures lines' == lines + Render(ElementOf(inp, tree, current))
    ensures q' == q + LinkedKids(inp, tree, current)
  {
    ghost var e := ElementOf(inp, tree, current);
    var currentId := idMap[current];
    var isLeaf := current !in tree.children || tree.children[current] == [];
    var category := if |current| == 1 then AssetContainer
      else if isLeaf then GenericPSR
      else AssetContainer;
    var parentResource := ResolveParent(inp, tree, idMap, current);
    assert category == e.category && currentId == e.about && parentResource == e.parentRef;
    lines' := lines + [OpenLine(Tag(category), currentId), NameLine(current[|current| - 1]),
                       ParentLine(parentResource), AssetLine(category, parentResource)];
    ghost var head := lines';
    lines', q' := AppendContents(lines', q, inp, tree, idMap, current, category);
    RenderParts(lines, e);
    AppendAssoc(head, CodeLines(e) + ChildLines(e.childRefs), [CloseLine(Tag(e.category))]);
    AppendAssoc(head, CodeLines(e), ChildLines(e.childRefs));
  }

  /** The code line, the child links and the closing tag of `current`, whose category is `category`. */
  method AppendContents(lines: seq<string>, q: seq<Path>, inp: Inputs, tree: Tree,
                        idMap: map<Path, string>, current: Path, category: Category)
    returns (lines': seq<string>, q': seq<Path>)
    requires current != []
    requires idMap == IdMap(inp) && category == CategoryOf(tree, current)
    ensures var e := ElementOf(inp, tree, current);
      lines' == lines + (CodeLines(e) + ChildLines(e.childRefs)) + [CloseLine(Tag(category))]
    ensures q' == q + LinkedKids(inp, tree, current)
  {
    ghost var e := ElementOf(inp, tree, current);
    lines' := lines;
    if current in inp.cckMap && inp.cckMap[current] != "" {
      lines' := lines' + [CodeLine(category, inp.cckMap[current])];
    }
    assert lines' == lines + CodeLines(e);
    ghost var withCode := lines';

    q' := q;
    if category == AssetContainer && current in tree.children {
      lines', q' := AppendChildLinks(lines', q', tree.children[current], inp, idMap);
    }
    assert lines' == withCode + ChildLines(e.childRefs);
    AppendAssoc(lines, CodeLines(e), ChildLines(e.childRefs));
    lines' := lines' + [CloseLine(Tag(category))];
  }

  lemma RenderParts(lines: seq<string>, e: Element)
    ensures lines + Render(e)
      == lines + [OpenLine(Tag(e.category), e.about), NameLine(e.name),
                  ParentLine(e.parentRef), AssetLine(e.category, e.parentRef)]
         + CodeLines(e) + ChildLines(e.childRefs) + [CloseLine(Tag(e.category))]
  {
    var head := [OpenLine(Tag(e.category), e.about), NameLine(e.name),
                 ParentLine(e.parentRef), AssetLine(e.category, e.parentRef)];
    var code, kids, tail := CodeLines(e), ChildLines(e.childRefs), [CloseLine(Tag(e.category))];
    assert Render(e) == head + code + kids + tail;
    AppendAssoc(lines, head + code + kids, tail);
    AppendAssoc(lines, head + code, kids);
    AppendAssoc(lines, head, code);
  }

  /**
   * The lines the queue loop has written once the listed paths `s` have come
   * off the queue: a path's element the first time it comes off.
   */
  function Emitted(inp: Inputs, t: Tree, s: seq<Path>): seq<string> {
    if s == [] then []
    else
      var init, p := s[..|s| - 1], s[|s| - 1];
      Emitted(inp, t, init) + (if p in init || p == [] then [] else Render(ElementOf(inp, t, p)))
  }

  /** Taking the head off the queue: a listed path while there is one, then a re-queued child. */
  lemma QueueShift(paths: seq<Path>, k: nat, extra: seq<Path>)
    requires k <= |paths| && paths[k..] + extra != []
    ensures k < |paths| ==> (paths[k..] + extra)[0] == paths[k]
    ensures k < |paths| ==> (paths[k..] + extra)[1..] == paths[k + 1..] + extra
    ensures k == |paths| ==> (paths[k..] + extra)[0] == extra[0]
    ensures k == |paths| ==> (paths[k..] + extra)[1..] == paths[k..] + extra[1..]
  {
  }

  /** Taking one more path emits its element exactly when the path is new. */
  lemma EmittedStep(inp: Inputs, t: Tree, paths: seq<Path>, k: nat)
    requires k < |paths|
    ensures Emitted(inp, t, paths[..k + 1])
      == if paths[k] in paths[..k] || paths[k] == [] then Emitted(inp, t, paths[..k])
         else Emitted(inp, t, paths[..k]) + Render(ElementOf(inp, t, paths[k]))
  {
    PrefixStep(paths, k);
  }

  /** The loop's output is the rendering of the distinct paths in first-occurrence order. */
  lemma {:induction false} EmittedIsDedup(inp: Inputs, t: Tree, s: seq<Path>)
    requires [] !in s
    ensures [] !in Dedup(s)
    ensures Emitted(inp, t, s) == RenderAll(Elements(inp, t, Dedup(s)))
  {
    assert [] !in Elems(Dedup(s));
    if s != [] {
      var init, p := s[..|s| - 1], s[|s| - 1];
      assert s[..|s| - 1 + 1] == s;
      DedupStep(s, |s| - 1);
      EmittedIsDedup(inp, t, init);
      if p !in init {
        ElementsAppend(inp, t, Dedup(init), p);
      }
    }
  }

  lemma ElementsAppend(inp: Inputs, t: Tree, order: seq<Path>, p: Path)
    requires [] !in order && p != []
    ensures RenderAll(Elements(inp, t, order + [p]))
      == RenderAll(Elements(inp, t, order)) + Render(ElementOf(inp, t, p))
  {
    var es := Elements(inp, t, order);
    assert Elements(inp, t, order + [p]) == es + [ElementOf(inp, t, p)];
    assert (es + [ElementOf(inp, t, p)])[..|es|] == es;
  }

  /**
   * XMLGenerator.generate: rejects an empty path list, rebuilds the edges,
   * draws the ids, writes the prolog and the elements, and closes the
   * document.
   */
  method Generate(paths: seq<Path>, externalChildren: map<Path, seq<string>>, parentUid: string,
                  cckMap: map<Path, string>, parentUidMap: map<Path, string>,
                  virtualContainers: set<Path>, cfg: Config, uuid: Path -> string)
    returns (r: Result<string, GenError>)
    ensures r == Rendered(cfg, Inputs(paths, parentUid, cckMap, parentUidMap, uuid))
  {
    if paths == [] {
      return Failure(NoData);
    }
    var inp := Inputs(paths, parentUid, cckMap, parentUidMap, uuid);
    var tree := ReconstructEdges(paths);
    var idMap := IdMap(inp);

    var rdfOpen := OpenRdf(cfg.namespaces);
    var lines := Declarations + [rdfOpen] + FullModel(cfg);
    var emitted := EmitObjects(lines, inp, tree, idMap);
    if emitted.Failure? {
      return Failure(emitted.error);
    }
    lines := emitted.value + [RdfClose];
    EmittedIsDedup(inp, tree, paths);
    r := Success(JoinLines(lines));
  }

  /**
   * The queue loop: every path is queued, then the queue is drained; a
   * path is emitted the first time it comes off the queue, and each
   * container queues the children it links. Since every listed path is
   * queued before any child, the paths come out in first-occurrence order
   * and the re-queued children are all skipped.
   */
  method EmitObjects(lines: seq<string>, inp: Inputs, tree: Tree, idMap: map<Path, string>)
    returns (r: Result<seq<string>, GenError>)
    requires idMap == IdMap(inp) && tree == Edges(inp.paths)
    ensures r == if [] in inp.paths then Failure(EmptyPath)
                 else Success(lines + Emitted(inp, tree, inp.paths))
  {
    var paths := inp.paths;
    var processed: set<Path> := {};
    var q: seq<Path> := paths;  // every path is queued first

    var out := lines;
    ghost var k := 0;
    ghost var extra: seq<Path> := [];
    while q != []
      invariant k <= |paths|
      invariant q == paths[k..] + extra
      invariant forall c :: c in extra ==> c in paths
      invariant processed == Elems(paths[..k])
      invariant [] !in processed
      invariant out == lines + Emitted(inp, tree, paths[..k])
      decreases |paths| - k, |q|
    {
      var current := q[0];
      q := q[1..];
      ghost var fromPaths := k < |paths|;
      QueueShift(paths, k, extra);
      if fromPaths {
        PrefixStep(paths, k);
      } else {
        assert paths[..k] == paths;
        assert current in extra;
        extra := extra[1..];
      }
      if current in processed {
        if fromPaths {
          EmittedStep(inp, tree, paths, k);
          k := k + 1;
        }
      } else {
        processed := processed + {current};
        if current == [] {
          return Failure(EmptyPath);
        }
        ghost var out0 := out;
        out, q := AppendObject(out, q, inp, tree, idMap, current);
        EmitKeeps(inp, tree, lines, out0, out, q, k, extra);
        extra := extra + LinkedKids(inp, tree, current);
        k := k + 1;
      }
    }
    assert paths[..k] == paths;
    return Success(out);
  }

  /** Emitting the first occurrence of the `k`-th path keeps the queue loop's invariant. */
  lemma EmitKeeps(inp: Inputs, tree: Tree, lines: seq<string>, out: seq<string>, out': seq<string>,
                  q': seq<Path>, k: nat, extra: seq<Path>)
    requires k < |inp.paths| && inp.paths[k] != [] && inp.paths[k] !in inp.paths[..k]
    requires forall c :: c in extra ==> c in inp.paths
    requires out == lines + Emitted(inp, tree, inp.paths[..k])
    requires out' == out + Render(ElementOf(inp, tree, inp.paths[k]))
    requires q' == inp.paths[k + 1..] + extra + LinkedKids(inp, tree, inp.paths[k])
    ensures out' == lines + Emitted(inp, tree, inp.paths[..k + 1])
    ensures q' == inp.paths[k + 1..] + (extra + LinkedKids(inp, tree, inp.paths[k]))
    ensures forall c :: c in extra + LinkedKids(inp, tree, inp.paths[k]) ==> c in inp.paths
  {
    var p := inp.paths[k];
    EmittedStep(inp, tree, inp.paths, k);
    if CategoryOf(tree, p) == AssetContainer && p in tree.children {
      LinkedChildrenFrom(tree.children[p], inp.paths, inp.uuid);
    }
    AppendAssoc(lines, Emitted(inp, tree, inp.paths[..k]), Render(ElementOf(inp, tree, p)));
    AppendAssoc(inp.paths[k + 1..], extra, LinkedKids(inp, tree, p));
  }

  // ---------------------------------------------------------------------
  // What the generator promises

  /** The invariant the edge loops keep: what is recorded is a true edge, children lists are duplicate-free. */
  ghost predicate TreeInv(t: Tree, paths: seq<Path>) {
    (forall p :: p in t.children ==> t.children[p] != [] && NoDups(t.children[p]))
    && (forall p, c :: p in t.children && c in t.children[p] ==> IsEdge(paths, p, c))
    && (forall c :: c in t.parent ==> IsEdge(paths, t.parent[c], c))
  }

  predicate HasEdge(t: Tree, p: Path, c: Path) {
    p in t.children && c in t.children[p] && c in t.parent && t.parent[c] == p
  }

  ghost predicate Grows(t: Tree, t': Tree) {
    forall p, c :: HasEdge(t, p, c) ==> HasEdge(t', p, c)
  }

  lemma EdgeStepKeeps(t: Tree, paths: seq<Path>, parent: Path, child: Path)
    requires TreeInv(t, paths)
    requires |child| >= 2 && parent == child[..|child| - 1]
    ensures TreeInv(EdgeStep(t, paths, parent, child), paths)
    ensures Grows(t, EdgeStep(t, paths, parent, child))
    ensures parent in paths && child in paths ==> HasEdge(EdgeStep(t, paths, parent, child), parent, child)
  {
    if parent in paths && child in paths {
      var kids := if parent in t.children then t.children[parent] else [];
      var t' := EdgeStep(t, paths, parent, child);
      assert NoDups(t'.children[parent]);
      forall p, c | HasEdge(t, p, c) ensures HasEdge(t', p, c) {
        if c == child {
          assert IsEdge(paths, p, c);
        }
      }
    }
  }

  lemma {:induction false} PathEdgesKeep(t: Tree, paths: seq<Path>, path: Path, n: nat)
    requires TreeInv(t, paths)
    requires n <= 1 || n <= |path|
    ensures TreeInv(PathEdges(t, paths, path, n), paths)
    ensures Grows(t, PathEdges(t, paths, path, n))
    ensures n >= 2 && path[..n - 1] in paths && path[..n] in paths ==>
      HasEdge(PathEdges(t, paths, path, n), path[..n - 1], path[..n])
  {
    if n >= 2 {
      var t1 := PathEdges(t, paths, path, n - 1);
      PathEdgesKeep(t, paths, path, n - 1);
      assert path[..n][..n - 1] == path[..n - 1];
      EdgeStepKeeps(t1, paths, path[..n - 1], path[..n]);
    }
  }

  lemma {:induction false} TreeOfKeeps(paths: seq<Path>, k: nat)
    requires k <= |paths|
    ensures TreeInv(TreeOf(paths, k), paths)
    ensures forall c :: c in paths[..k] && |c| >= 2 && c[..|c| - 1] in paths ==>
      HasEdge(TreeOf(paths, k), c[..|c| - 1], c)
  {
    if k > 0 {
      var path := paths[k - 1];
      var t0 := TreeOf(paths, k - 1);
      TreeOfKeeps(paths, k - 1);
      PathEdgesKeep(t0, paths, path, |path|);
      assert path[..|path|] == path;
      assert paths[..k] == paths[..k - 1] + [path];
    }
  }

  /**
   * After edge reconstruction, `children_map[p]` lists exactly the paths one
   * segment below `p`, without duplicates, and `parent_map[q]` is `q` without
   * its last segment for every path `q` whose parent path is a path.
   */
  lemma TreeShape(paths: seq<Path>)
    ensures ExactTree(Edges(paths), paths)
  {
    TreeOfKeeps(paths, |paths|);
    assert paths[..|paths|] == paths;
  }
}

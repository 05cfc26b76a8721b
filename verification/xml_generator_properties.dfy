/**
 * What the generated document promises about each node: its category,
 * its parent reference, its inventory code and its child links, that
 * every distinct path is emitted exactly once, and how the parser's
 * output and the generator fit together.
 */
module XmlGeneratorProperties {
  import opened Wrappers
  import opened Paths
  import opened XmlGenerator
  import HierarchyParser

  // ---------------------------------------------------------------------
  // Sequence helpers

  lemma NoDupsSnoc<T>(s: seq<T>, x: T)
    requires NoDups(s) && x !in s
    ensures NoDups(s + [x])
  {
    var t := s + [x];
    forall i, j | 0 <= i < j < |t| ensures t[i] != t[j] {
      if j == |s| {
        assert t[i] == s[i];
      }
    }
  }

  /** The `i`-th id is the id of the `i`-th path. */
  lemma {:induction false} IdsAt(ps: seq<Path>, uuid: Path -> string)
    ensures forall i :: 0 <= i < |ps| ==> Ids(ps, uuid)[i] == GenerateId(uuid, ps[i])
  {
    if ps != [] {
      var init := ps[..|ps| - 1];
      IdsAt(init, uuid);
      assert forall i :: 0 <= i < |init| ==> ps[i] == init[i];
    }
  }

  /** The `j`-th child line links the `j`-th id. */
  lemma {:induction false} ChildLinesAt(ids: seq<string>)
    ensures forall j :: 0 <= j < |ids| ==> ChildLines(ids)[j] == ChildLine(ids[j])
  {
    if ids != [] {
      var init := ids[..|ids| - 1];
      ChildLinesAt(init);
      assert forall j :: 0 <= j < |init| ==> ids[j] == init[j];
    }
  }

  // ---------------------------------------------------------------------
  // Category

  /**
   * A root is `cim:AssetContainer`; any other node is `cim:AssetContainer`
   * exactly when some path lies one segment below it, `me:GenericPSR`
   * otherwise.
   */
  lemma CategoryRule(paths: seq<Path>, p: Path)
    ensures CategoryOf(Edges(paths), p) == AssetContainer
      <==> |p| == 1 || exists c :: IsEdge(paths, p, c)
  {
    var t := Edges(paths);
    TreeShape(paths);
    if |p| != 1 {
      if CategoryOf(t, p) == AssetContainer {
        assert IsEdge(paths, p, t.children[p][0]);
      }
      if exists c :: IsEdge(paths, p, c) {
        var c :| IsEdge(paths, p, c);
        assert c in t.children[p];
      }
    }
  }

  // ---------------------------------------------------------------------
  // Parent reference

  /**
   * The `ParentObject` reference in strict priority: a root points at the
   * given parent uid; a path in the virtual-parent map at that uid; a path
   * whose parent path is listed at the parent's id; anything else at the
   * given parent uid.
   */
  lemma ParentRefPriority(inp: Inputs, p: Path)
    ensures var r := ParentRef(inp, Edges(inp.paths), p);
      if |p| == 1 then r == inp.parentUid
      else if p in inp.parentUidMap then r == "#_" + inp.parentUidMap[p]
      else if |p| >= 2 && p in inp.paths && p[..|p| - 1] in inp.paths
      then r == GenerateId(inp.uuid, p[..|p| - 1])
      else r == inp.parentUid
  {
    TreeShape(inp.paths);
  }

  // ---------------------------------------------------------------------
  // Child links

  /** The linked children never repeat an id. */
  lemma {:induction false} LinkedIdsDistinct(kids: seq<Path>, paths: seq<Path>, uuid: Path -> string)
    ensures NoDups(Ids(LinkedChildren(kids, paths, uuid), uuid))
  {
    if kids != [] {
      var kept := LinkedChildren(kids[..|kids| - 1], paths, uuid);
      var c := kids[|kids| - 1];
      LinkedIdsDistinct(kids[..|kids| - 1], paths, uuid);
      if c in paths && GenerateId(uuid, c) !in Ids(kept, uuid) {
        IdsAppend(kept, c, uuid);
        NoDupsSnoc(Ids(kept, uuid), GenerateId(uuid, c));
      }
    }
  }

  /** With distinct uuids, every child of a duplicate-free list of paths is linked, in order. */
  lemma {:induction false} LinkedAllWhenDistinct(kids: seq<Path>, paths: seq<Path>, uuid: Path -> string)
    requires NoDups(kids)
    requires forall c :: c in kids ==> c in paths
    requires forall a, b :: a in paths && b in paths && uuid(a) == uuid(b) ==> a == b
    ensures LinkedChildren(kids, paths, uuid) == kids
  {
    if kids != [] {
      var init := kids[..|kids| - 1];
      var c := kids[|kids| - 1];
      assert forall i :: 0 <= i < |init| ==> init[i] == kids[i];
      LinkedAllWhenDistinct(init, paths, uuid);
      assert c !in init;
      assert GenerateId(uuid, c) !in Ids(init, uuid) by {
        IdsAt(init, uuid);
        forall i | 0 <= i < |init| ensures Ids(init, uuid)[i] != GenerateId(uuid, c) {
          GenerateIdShape(uuid, init[i], c);
        }
      }
      assert kids == init + [c];
    }
  }

  /** The links of node `p` never repeat an id, and a leaf has none. */
  lemma LinkedKidsDistinct(inp: Inputs, t: Tree, p: Path)
    ensures NoDups(Ids(LinkedKids(inp, t, p), inp.uuid))
    ensures CategoryOf(t, p) == GenericPSR ==> LinkedKids(inp, t, p) == []
  {
    if CategoryOf(t, p) == AssetContainer && p in t.children {
      LinkedIdsDistinct(t.children[p], inp.paths, inp.uuid);
    }
  }

  /** With distinct uuids a node links every reconstructed child, in `children_map` order. */
  lemma LinkedKidsAll(inp: Inputs, p: Path)
    requires DistinctIds(inp)
    ensures var t := Edges(inp.paths);
      LinkedKids(inp, t, p) == if p in t.children then t.children[p] else []
  {
    var t := Edges(inp.paths);
    TreeShape(inp.paths);
    if p in t.children {
      var kids := t.children[p];
      assert CategoryOf(t, p) == AssetContainer;
      LinkedAllWhenDistinct(kids, inp.paths, inp.uuid);
    }
  }

  /** With distinct uuids the links of node `p` are exactly the ids of the paths one segment below it. */
  lemma LinkedKidsExact(inp: Inputs, p: Path)
    requires DistinctIds(inp)
    ensures forall x :: (x in Ids(LinkedKids(inp, Edges(inp.paths), p), inp.uuid)
      <==> exists c :: IsEdge(inp.paths, p, c) && x == GenerateId(inp.uuid, c))
  {
    var t := Edges(inp.paths);
    var kids := if p in t.children then t.children[p] else [];
    var ids := Ids(LinkedKids(inp, t, p), inp.uuid);
    LinkedKidsAll(inp, p);
    TreeShape(inp.paths);
    IdsAt(kids, inp.uuid);
    assert ids == Ids(kids, inp.uuid);
    forall x ensures x in ids <==> exists c :: IsEdge(inp.paths, p, c) && x == GenerateId(inp.uuid, c) {
      if x in ids {
        var i :| 0 <= i < |ids| && ids[i] == x;
        assert IsEdge(inp.paths, p, kids[i]);
      }
      if exists c :: IsEdge(inp.paths, p, c) && x == GenerateId(inp.uuid, c) {
        var c :| IsEdge(inp.paths, p, c) && x == GenerateId(inp.uuid, c);
        var i :| 0 <= i < |kids| && kids[i] == c;
        assert ids[i] == x;
      }
    }
  }

  /**
   * `ChildObjects` links of an element: never a repeated id, none for a
   * leaf, and with distinct uuids exactly the ids of the paths one segment
   * below it.
   */
  lemma ChildLinks(inp: Inputs, p: Path)
    requires p != []
    ensures var e := ElementOf(inp, Edges(inp.paths), p);
      NoDups(e.childRefs)
      && (e.category == GenericPSR ==> e.childRefs == [])
      && (DistinctIds(inp) ==> forall x :: (x in e.childRefs
            <==> exists c :: IsEdge(inp.paths, p, c) && x == GenerateId(inp.uuid, c)))
  {
    var t := Edges(inp.paths);
    assert ElementOf(inp, t, p).childRefs == Ids(LinkedKids(inp, t, p), inp.uuid);
    assert ElementOf(inp, t, p).category == CategoryOf(t, p);
    LinkedKidsDistinct(inp, t, p);
    if DistinctIds(inp) {
      LinkedKidsExact(inp, p);
    }
  }

  // ---------------------------------------------------------------------
  // One element

  /**
   * The lines of any element: an opening and a closing tag of the same
   * name, the parent reference on both parent links, and a code line
   * exactly when there is a code.
   */
  lemma RenderFrame(e: Element)
    ensures var b := Render(e);
      var n := if e.code.Some? then 1 else 0;
      |b| == 5 + n + |e.childRefs|
      && b[0] == OpenLine(Tag(e.category), e.about)
      && b[1] == NameLine(e.name)
      && b[2] == ParentLine(e.parentRef)
      && b[3] == AssetLine(e.category, e.parentRef)
      && (e.code.Some? ==> b[4] == CodeLine(e.category, e.code.value))
      && b[|b| - 1] == CloseLine(Tag(e.category))
  {
    var head := [OpenLine(Tag(e.category), e.about), NameLine(e.name),
                 ParentLine(e.parentRef), AssetLine(e.category, e.parentRef)];
    var code, kids, tail := CodeLines(e), ChildLines(e.childRefs), [CloseLine(Tag(e.category))];
    BlockIndex(head, code, kids, tail);
  }

  /** After the code line, an element has one `ChildObjects` line per link, in order. */
  lemma RenderChildLines(e: Element)
    ensures var b := Render(e);
      var n := if e.code.Some? then 1 else 0;
      forall j :: 0 <= j < |e.childRefs| ==> b[4 + n + j] == ChildLine(e.childRefs[j])
  {
    var head := [OpenLine(Tag(e.category), e.about), NameLine(e.name),
                 ParentLine(e.parentRef), AssetLine(e.category, e.parentRef)];
    var code, kids, tail := CodeLines(e), ChildLines(e.childRefs), [CloseLine(Tag(e.category))];
    ChildLinesAt(e.childRefs);
    BlockIndex(head, code, kids, tail);
  }

  /** Indexing into four consecutive parts. */
  lemma BlockIndex<T>(head: seq<T>, code: seq<T>, kids: seq<T>, tail: seq<T>)
    ensures var b := head + code + kids + tail;
      |b| == |head| + |code| + |kids| + |tail|
      && (forall j :: 0 <= j < |head| ==> b[j] == head[j])
      && (forall j :: 0 <= j < |code| ==> b[|head| + j] == code[j])
      && (forall j :: 0 <= j < |kids| ==> b[|head| + |code| + j] == kids[j])
      && (forall j :: 0 <= j < |tail| ==> b[|head| + |code| + |kids| + j] == tail[j])
  {
  }

  /**
   * The element of node `p`: tagged by its category, carrying its id and
   * its last segment as name, and its inventory code exactly when the code
   * map gives it a non-empty one, in the property of its category
   * (`mRIDStr` for a container, `ccsCode` for a leaf).
   */
  lemma ElementBlock(inp: Inputs, t: Tree, p: Path)
    requires p != []
    ensures var b := Render(ElementOf(inp, t, p));
      var hasCode := p in inp.cckMap && inp.cckMap[p] != "";
      |b| == 5 + (if hasCode then 1 else 0) + |LinkedKids(inp, t, p)|
      && b[0] == OpenLine(Tag(CategoryOf(t, p)), GenerateId(inp.uuid, p))
      && b[1] == NameLine(p[|p| - 1])
      && b[2] == ParentLine(ParentRef(inp, t, p))
      && b[3] == AssetLine(CategoryOf(t, p), ParentRef(inp, t, p))
      && (hasCode ==> b[4] == CodeLine(CategoryOf(t, p), inp.cckMap[p]))
      && b[|b| - 1] == CloseLine(Tag(CategoryOf(t, p)))
  {
    RenderFrame(ElementOf(inp, t, p));
  }

  // ---------------------------------------------------------------------
  // The whole document

  /**
   * Every distinct path is emitted exactly once: the elements are those of
   * the paths in first-occurrence order, one per listed path, and with
   * distinct uuids no two of them carry the same id.
   */
  lemma EmittedOnce(inp: Inputs)
    requires [] !in inp.paths
    ensures [] !in Dedup(inp.paths)
    ensures var es := Elements(inp, Edges(inp.paths), Dedup(inp.paths));
      (forall p :: p in inp.paths ==>
         exists i :: 0 <= i < |es| && es[i] == ElementOf(inp, Edges(inp.paths), p))
      && (forall i :: 0 <= i < |es| ==>
            Dedup(inp.paths)[i] in inp.paths && es[i] == ElementOf(inp, Edges(inp.paths), Dedup(inp.paths)[i]))
      && (DistinctIds(inp) ==> forall i, j :: 0 <= i < j < |es| ==> es[i].about != es[j].about)
  {
    var order := Dedup(inp.paths);
    var t := Edges(inp.paths);
    assert Elems(order) == Elems(inp.paths);
    assert [] !in Elems(order);
    var es := Elements(inp, t, order);
    forall p | p in inp.paths
      ensures exists i :: 0 <= i < |es| && es[i] == ElementOf(inp, t, p)
    {
      assert p in Elems(order);
      var i :| 0 <= i < |order| && order[i] == p;
      assert es[i] == ElementOf(inp, t, p);
    }
    forall i | 0 <= i < |es| ensures order[i] in inp.paths {
      assert order[i] in Elems(order);
    }
    if DistinctIds(inp) {
      forall i, j | 0 <= i < j < |es| ensures es[i].about != es[j].about {
        assert order[i] in Elems(order) && order[j] in Elems(order);
        GenerateIdShape(inp.uuid, order[i], order[j]);
      }
    }
  }

  /** The fixed lines around the elements, whatever the elements are. */
  lemma Framing(cfg: Config, body: seq<string>)
    ensures var ls := Declarations + [RdfOpen(cfg.namespaces)] + FullModel(cfg) + body + [RdfClose];
      |ls| == 10 + |body|
      && ls[..3] == Declarations
      && ls[3] == RdfOpen(cfg.namespaces)
      && ls[4..9] == FullModel(cfg)
      && ls[9..|ls| - 1] == body
      && ls[|ls| - 1] == RdfClose
  {
    var prolog := Declarations + [RdfOpen(cfg.namespaces)] + FullModel(cfg);
    var ls := prolog + body + [RdfClose];
    assert |prolog| == 9;
    assert ls[..9] == prolog;
    assert ls[9..|ls| - 1] == body;
    assert prolog[..3] == Declarations && prolog[4..9] == FullModel(cfg);
  }

  /**
   * The document is the three declaration lines, the `rdf:RDF` opening
   * tag, the `FullModel` block, the elements of the distinct paths in
   * first-occurrence order and the closing tag, in that order; without
   * paths there is no document.
   */
  lemma DocumentFraming(cfg: Config, inp: Inputs)
    ensures inp.paths == [] ==> Rendered(cfg, inp) == Failure(NoData)
    ensures [] in inp.paths ==> Rendered(cfg, inp) == Failure(EmptyPath)
    ensures inp.paths != [] && [] !in inp.paths ==>
      var ls := DocumentLines(cfg, inp);
      Rendered(cfg, inp) == Success(JoinLines(ls))
      && ls[..3] == Declarations
      && ls[3] == RdfOpen(cfg.namespaces)
      && ls[4..9] == FullModel(cfg)
      && ls[9..|ls| - 1] == Emitted(inp, Edges(inp.paths), inp.paths)
      && ls[|ls| - 1] == RdfClose
  {
    if inp.paths != [] && [] !in inp.paths {
      var body := Emitted(inp, Edges(inp.paths), inp.paths);
      EmittedIsDedup(inp, Edges(inp.paths), inp.paths);
      Framing(cfg, body);
    }
  }

  // ---------------------------------------------------------------------
  // Parser and generator together

  /**
   * The parsed paths are prefix-closed and never empty. Given to the
   * generator with no virtual-parent map, every non-root element points
   * at the id of its parent path, and that parent is a container.
   */
  lemma ParsedHierarchyParents(rows: seq<HierarchyParser.Row>, inp: Inputs)
    requires Elems(inp.paths) == HierarchyParser.PathsToCreate(
      HierarchyParser.RawPaths(HierarchyParser.Entries(rows)),
      HierarchyParser.ColumnMap(HierarchyParser.Entries(rows), HierarchyParser.UidColumn))
    requires inp.parentUidMap == map[]
    ensures [] !in inp.paths
    ensures forall p :: p in inp.paths && |p| >= 2 ==>
      ParentRef(inp, Edges(inp.paths), p) == GenerateId(inp.uuid, p[..|p| - 1])
      && CategoryOf(Edges(inp.paths), p[..|p| - 1]) == AssetContainer
  {
    var es := HierarchyParser.Entries(rows);
    var raw := HierarchyParser.RawPaths(es);
    var uids := HierarchyParser.ColumnMap(es, HierarchyParser.UidColumn);
    HierarchyParser.PathsToCreateSound(raw, uids);
    HierarchyParser.PathsToCreatePrefixClosed(raw, uids);
    assert [] !in Elems(inp.paths);
    forall p | p in inp.paths && |p| >= 2
      ensures ParentRef(inp, Edges(inp.paths), p) == GenerateId(inp.uuid, p[..|p| - 1])
      ensures CategoryOf(Edges(inp.paths), p[..|p| - 1]) == AssetContainer
    {
      var parent := p[..|p| - 1];
      assert p in Elems(inp.paths);
      assert parent in Elems(inp.paths);
      ParentRefPriority(inp, p);
      assert IsEdge(inp.paths, parent, p);
      CategoryRule(inp.paths, parent);
    }
  }
}

/**
 * The hierarchy parser: from rows `(path text, uid, inventory code)` to the
 * set of paths whose objects must be created, the uids attached as external
 * children of their parent path, and the path-to-code and path-to-uid maps.
 *
 * A path that carries a uid stands for an object that already exists: it
 * is not created on its own account (it is still created as the ancestor of
 * another path); every raw occurrence of it lists its last uid under its
 * parent path, and the parent with all its ancestors is created instead.
 * An occurrence of a root-level path with a uid has no parent to go under
 * and adds nothing.
 */
module HierarchyParser {
  import opened Paths

  /** One input row, as the row reader delivers it. */
  datatype Row = Row(path: string, uid: string, code: string)

  /** A row with its path text split into segments (`parts` in the source). */
  datatype Entry = Entry(path: Path, uid: string, code: string)

  function EntryOf(row: Row): Entry {
    Entry(SplitPath(row.path), row.uid, row.code)
  }

  function Entries(rows: seq<Row>): (es: seq<Entry>)
    ensures |es| == |rows|
  {
    seq(|rows|, i requires 0 <= i < |rows| => EntryOf(rows[i]))
  }

  /** The two optional cells of a row. */
  datatype Column = UidColumn | CodeColumn

  function Cell(e: Entry, col: Column): string {
    match col
    case UidColumn => e.uid
    case CodeColumn => e.code
  }

  // ---------------------------------------------------------------------
  // Specification of the first pass over the rows

  /** The non-empty paths of the entries, one per such entry, in row order. */
  function RawPaths(es: seq<Entry>): (raw: seq<Path>)
    ensures |raw| <= |es|
    ensures forall p :: p in raw ==> p != []
  {
    if es == [] then []
    else
      var p := es[|es| - 1].path;
      RawPaths(es[..|es| - 1]) + (if p != [] then [p] else [])
  }

  /** The entries' non-empty cells of one column keyed by path, a later entry overwriting. */
  function ColumnMap(es: seq<Entry>, col: Column): map<Path, string> {
    if es == [] then map[]
    else
      var m := ColumnMap(es[..|es| - 1], col);
      var e := es[|es| - 1];
      if Supplies(e, col, e.path) then m[e.path := Cell(e, col)] else m
  }

  /** The entry gives path `p` a non-empty cell in column `col`. */
  predicate Supplies(e: Entry, col: Column, p: Path) {
    p != [] && e.path == p && Cell(e, col) != ""
  }

  /** Entry `j` is the last entry that gives `p` a cell in column `col`. */
  predicate LastSupplier(es: seq<Entry>, col: Column, p: Path, j: int) {
    0 <= j < |es| && Supplies(es[j], col, p)
    && forall k :: j < k < |es| ==> !Supplies(es[k], col, p)
  }

  // ---------------------------------------------------------------------
  // Specification of the second pass over the raw paths

  /** The paths one raw path adds to the paths to create. */
  function Created(path: Path, uids: map<Path, string>): set<Path> {
    if path in uids then
      (if |path| > 1 then NonEmptyPrefixes(path[..|path| - 1]) else {})
    else NonEmptyPrefixes(path)
  }

  function PathsToCreate(raw: seq<Path>, uids: map<Path, string>): set<Path> {
    if raw == [] then {}
    else PathsToCreate(raw[..|raw| - 1], uids) + Created(raw[|raw| - 1], uids)
  }

  function ExternalChildren(raw: seq<Path>, uids: map<Path, string>): map<Path, seq<string>> {
    if raw == [] then map[]
    else
      var ec := ExternalChildren(raw[..|raw| - 1], uids);
      var path := raw[|raw| - 1];
      if path in uids && |path| > 1 then
        var parent := path[..|path| - 1];
        ec[parent := (if parent in ec then ec[parent] else []) + [uids[path]]]
      else ec
  }

  /** The raw path is a uid-carrying object whose parent path is `parent`. */
  predicate AttachedTo(r: Path, uids: map<Path, string>, parent: Path) {
    r in uids && |r| > 1 && r[..|r| - 1] == parent
  }

  /** The uids attached under `parent`, one per raw occurrence, in row order. */
  function AttachedUids(raw: seq<Path>, uids: map<Path, string>, parent: Path): seq<string> {
    if raw == [] then []
    else
      var r := raw[|raw| - 1];
      AttachedUids(raw[..|raw| - 1], uids, parent)
        + (if AttachedTo(r, uids, parent) then [uids[r]] else [])
  }

  // ---------------------------------------------------------------------
  // The parser

  lemma PrefixesOfNonEmpty(p: Path)
    requires |p| >= 1
    ensures NonEmptyPrefixes(p) == {p} + set k | 1 <= k < |p| :: p[..k]
  {
    assert p[..|p|] == p;
  }

  /**
   * HierarchyParser.parse on rows already read: returns the paths to create
   * (each once, in an unspecified order), the external children, the
   * path-to-code map and the path-to-uid map.
   */
  method Parse(rows: seq<Row>)
    returns (paths: seq<Path>, externalChildren: map<Path, seq<string>>,
             pathToCck: map<Path, string>, pathToUid: map<Path, string>)
    ensures pathToUid == ColumnMap(Entries(rows), UidColumn)
    ensures pathToCck == ColumnMap(Entries(rows), CodeColumn)
    ensures NoDups(paths)
    ensures Elems(paths) == PathsToCreate(RawPaths(Entries(rows)), pathToUid)
    ensures externalChildren == ExternalChildren(RawPaths(Entries(rows)), pathToUid)
  {
    var allRawPaths;
    allRawPaths, pathToUid, pathToCck := ReadRows(rows);
    var pathsToCreate;
    pathsToCreate, externalChildren := ResolvePaths(allRawPaths, pathToUid);
    paths := ListOf(pathsToCreate);
  }

  lemma ReadRowsStep(es: seq<Entry>, i: nat)
    requires i < |es|
    ensures RawPaths(es[..i + 1])
      == RawPaths(es[..i]) + (if es[i].path != [] then [es[i].path] else [])
    ensures forall col ::
      ColumnMap(es[..i + 1], col)
      == if Supplies(es[i], col, es[i].path) then ColumnMap(es[..i], col)[es[i].path := Cell(es[i], col)]
         else ColumnMap(es[..i], col)
  {
    assert es[..i + 1][..i] == es[..i];
  }

  /** The first loop of parse: raw paths and the uid and code maps. */
  method ReadRows(rows: seq<Row>)
    returns (allRawPaths: seq<Path>, pathToUid: map<Path, string>, pathToCck: map<Path, string>)
    ensures allRawPaths == RawPaths(Entries(rows))
    ensures pathToUid == ColumnMap(Entries(rows), UidColumn)
    ensures pathToCck == ColumnMap(Entries(rows), CodeColumn)
  {
    ghost var es := Entries(rows);
    pathToUid, pathToCck := map[], map[];
    allRawPaths := [];
    for i := 0 to |rows|
      invariant allRawPaths == RawPaths(es[..i])
      invariant pathToUid == ColumnMap(es[..i], UidColumn)
      invariant pathToCck == ColumnMap(es[..i], CodeColumn)
    {
      ReadRowsStep(es, i);
      var parts := SplitPath(rows[i].path);
      assert es[i] == Entry(parts, rows[i].uid, rows[i].code);
      if parts != [] {
        allRawPaths := allRawPaths + [parts];
        if rows[i].uid != "" {
          pathToUid := pathToUid[parts := rows[i].uid];
        }
        if rows[i].code != "" {
          pathToCck := pathToCck[parts := rows[i].code];
        }
      }
    }
    assert es[..|rows|] == es;
  }

  /** Adds `p` and all its non-empty strict prefixes to `s`. */
  method AddWithAncestors(s: set<Path>, p: Path) returns (r: set<Path>)
    requires |p| >= 1
    ensures r == s + NonEmptyPrefixes(p)
  {
    r := s + {p};
    for i := 1 to |p|
      invariant r == s + {p} + set k | 1 <= k < i :: p[..k]
    {
      r := r + {p[..i]};
    }
    PrefixesOfNonEmpty(p);
  }

  /** The second loop of parse: paths to create and external children. */
  method ResolvePaths(allRawPaths: seq<Path>, pathToUid: map<Path, string>)
    returns (pathsToCreate: set<Path>, externalChildren: map<Path, seq<string>>)
    requires forall p :: p in allRawPaths ==> p != []
    ensures pathsToCreate == PathsToCreate(allRawPaths, pathToUid)
    ensures externalChildren == ExternalChildren(allRawPaths, pathToUid)
  {
    pathsToCreate := {};
    externalChildren := map[];
    for j := 0 to |allRawPaths|
      invariant pathsToCreate == PathsToCreate(allRawPaths[..j], pathToUid)
      invariant externalChildren == ExternalChildren(allRawPaths[..j], pathToUid)
    {
      assert allRawPaths[..j + 1][..j] == allRawPaths[..j];
      var path := allRawPaths[j];
      assert path in allRawPaths;
      if path in pathToUid {
        var uid := pathToUid[path];
        var parentPath := if |path| > 1 then path[..|path| - 1] else [];
        if parentPath != [] {
          var listed := if parentPath in externalChildren then externalChildren[parentPath] else [];
          externalChildren := externalChildren[parentPath := listed + [uid]];
          pathsToCreate := AddWithAncestors(pathsToCreate, parentPath);
        }
        // else: a root-level path with a uid adds nothing (the source logs a warning)
      } else {
        pathsToCreate := AddWithAncestors(pathsToCreate, path);
      }
    }
    assert allRawPaths[..|allRawPaths|] == allRawPaths;
  }

  /** list(paths_to_create): every member once, in whatever order the set yields. */
  method ListOf(s: set<Path>) returns (paths: seq<Path>)
    ensures NoDups(paths) && Elems(paths) == s
  {
    paths := [];
    var rest := s;
    while rest != {}
      invariant NoDups(paths)
      invariant Elems(paths) + rest == s
      invariant Elems(paths) !! rest
      decreases |rest|
    {
      var p :| p in rest;
      paths := paths + [p];
      rest := rest - {p};
    }
  }

  // ---------------------------------------------------------------------
  // What the parser promises

  /** The raw paths are exactly the non-empty paths of the entries. */
  lemma {:induction false} RawPathsOfEntries(es: seq<Entry>)
    ensures forall p :: p in RawPaths(es) <==> p != [] && exists j :: 0 <= j < |es| && es[j].path == p
  {
    if es != [] {
      var n := |es| - 1;
      var init := es[..n];
      RawPathsOfEntries(init);
      var q := es[n].path;
      assert RawPaths(es) == RawPaths(init) + (if q != [] then [q] else []);
      forall p | p in RawPaths(es)
        ensures p != [] && exists j :: 0 <= j < |es| && es[j].path == p
      {
        if p in RawPaths(init) {
          var j :| 0 <= j < |init| && init[j].path == p;
          assert es[j] == init[j];
        } else {
          assert es[n].path == p;
        }
      }
      forall p | p != [] && exists j :: 0 <= j < |es| && es[j].path == p
        ensures p in RawPaths(es)
      {
        var j :| 0 <= j < |es| && es[j].path == p;
        if j < n {
          assert init[j] == es[j];
          assert p in RawPaths(init);
        }
      }
    }
  }

  /** Every segment of every raw path is stripped, non-empty and free of the separator. */
  lemma RawPathSegmentsWellFormed(rows: seq<Row>)
    ensures forall p, seg :: p in RawPaths(Entries(rows)) && seg in p ==> WellFormedSegment(seg)
  {
    var es := Entries(rows);
    RawPathsOfEntries(es);
    forall p, seg | p in RawPaths(es) && seg in p
      ensures WellFormedSegment(seg)
    {
      var j :| 0 <= j < |es| && es[j].path == p;
      assert p == SplitPath(rows[j].path);
      SplitPathWellFormed(rows[j].path);
    }
  }

  lemma ColumnMapStep(es: seq<Entry>, col: Column)
    requires es != []
    ensures var n := |es| - 1;
      ColumnMap(es, col) == if Supplies(es[n], col, es[n].path)
        then ColumnMap(es[..n], col)[es[n].path := Cell(es[n], col)]
        else ColumnMap(es[..n], col)
  {
  }

  /** path_to_uid and path_to_cck hold exactly the paths some entry gives a non-empty cell. */
  lemma {:induction false} ColumnMapKeys(es: seq<Entry>, col: Column, p: Path)
    ensures p in ColumnMap(es, col) <==> exists j :: 0 <= j < |es| && Supplies(es[j], col, p)
  {
    if es != [] {
      var n := |es| - 1;
      var init := es[..n];
      ColumnMapKeys(init, col, p);
      ColumnMapStep(es, col);
      if Supplies(es[n], col, p) {
        assert p in ColumnMap(es, col);
      } else if p in ColumnMap(init, col) {
        var j :| 0 <= j < n && Supplies(init[j], col, p);
        assert es[j] == init[j];
        assert p in ColumnMap(es, col);
      } else {
        assert p !in ColumnMap(es, col);
        forall j | 0 <= j < |es| ensures !Supplies(es[j], col, p) {
          if j < n {
            assert es[j] == init[j];
          }
        }
      }
    }
  }

  /** A later entry overwrites: a path maps to the cell of the last entry that gives it one. */
  lemma {:induction false} ColumnMapLastWins(es: seq<Entry>, col: Column, p: Path, j: int)
    requires LastSupplier(es, col, p, j)
    ensures p in ColumnMap(es, col) && ColumnMap(es, col)[p] == Cell(es[j], col)
  {
    var n := |es| - 1;
    var init := es[..n];
    ColumnMapStep(es, col);
    if j < n {
      assert !Supplies(es[n], col, p);
      assert init[j] == es[j];
      assert LastSupplier(init, col, p, j) by {
        forall k | j < k < |init| ensures !Supplies(init[k], col, p) {
          assert init[k] == es[k];
        }
      }
      ColumnMapLastWins(init, col, p, j);
    }
  }

  lemma NonEmptyPrefixesClosed(x: Path)
    ensures PrefixClosed(NonEmptyPrefixes(x))
  {
    forall p, i | p in NonEmptyPrefixes(x) && 1 <= i < |p|
      ensures p[..i] in NonEmptyPrefixes(x)
    {
      assert p[..i] == x[..i];
    }
  }

  /** The paths to create are prefix-closed. */
  lemma {:induction false} PathsToCreatePrefixClosed(raw: seq<Path>, uids: map<Path, string>)
    ensures PrefixClosed(PathsToCreate(raw, uids))
  {
    if raw != [] {
      var last := raw[|raw| - 1];
      PathsToCreatePrefixClosed(raw[..|raw| - 1], uids);
      if last in uids && |last| > 1 {
        NonEmptyPrefixesClosed(last[..|last| - 1]);
      } else if last !in uids {
        NonEmptyPrefixesClosed(last);
      }
    }
  }

  /** Every raw path that carries no uid is created. */
  lemma {:induction false} PathsToCreateComplete(raw: seq<Path>, uids: map<Path, string>)
    ensures forall r :: r in raw && r != [] && r !in uids ==> r in PathsToCreate(raw, uids)
  {
    if raw != [] {
      var init := raw[..|raw| - 1];
      PathsToCreateComplete(init, uids);
      forall r | r in raw && r != [] && r !in uids
        ensures r in PathsToCreate(raw, uids)
      {
        if r != raw[|raw| - 1] {
          assert r in init by {
            var i :| 0 <= i < |raw| && raw[i] == r;
            assert init[i] == r;
          }
        } else {
          NonEmptyPrefixesShape(r);
        }
      }
    }
  }

  /**
   * Nothing else is created: a created path is a raw path without a uid
   * or a non-empty strict prefix of a raw path. In particular a path that
   * carries a uid is created only as the ancestor of another raw path.
   */
  lemma {:induction false} PathsToCreateSound(raw: seq<Path>, uids: map<Path, string>)
    ensures forall p :: p in PathsToCreate(raw, uids) ==>
      p != [] && ((p in raw && p !in uids) || exists r :: r in raw && StrictAncestor(p, r))
    ensures forall p :: p in PathsToCreate(raw, uids) && p in uids ==>
      exists r :: r in raw && StrictAncestor(p, r)
  {
    if raw != [] {
      var init := raw[..|raw| - 1];
      var last := raw[|raw| - 1];
      PathsToCreateSound(init, uids);
      assert forall r :: r in init ==> r in raw;
      forall p | p in Created(last, uids)
        ensures p != [] && ((p in raw && p !in uids) || exists r :: r in raw && StrictAncestor(p, r))
      {
        if last in uids {
          assert StrictAncestor(p, last);
        } else if p != last {
          assert StrictAncestor(p, last);
        }
      }
    }
  }

  /** One more raw path adds what it creates. */
  lemma CreateStep(s: seq<Path>, x: Path, uids: map<Path, string>)
    ensures PathsToCreate(s + [x], uids) == PathsToCreate(s, uids) + Created(x, uids)
  {
    assert (s + [x])[..|s|] == s;
  }

  /** One more raw path attaches its uid, if any, under its parent path. */
  lemma AttachStep(s: seq<Path>, x: Path, uids: map<Path, string>)
    ensures ExternalChildren(s + [x], uids) ==
      var ec := ExternalChildren(s, uids);
      if x in uids && |x| > 1 then
        ec[x[..|x| - 1] := (if x[..|x| - 1] in ec then ec[x[..|x| - 1]] else []) + [uids[x]]]
      else ec
  {
    assert (s + [x])[..|s|] == s;
  }

  /** The paths to create of consecutive row groups are the union of each group's. */
  lemma {:induction false} PathsToCreateAppend(s: seq<Path>, t: seq<Path>, uids: map<Path, string>)
    ensures PathsToCreate(s + t, uids) == PathsToCreate(s, uids) + PathsToCreate(t, uids)
  {
    if t == [] {
      assert s + t == s;
    } else {
      var t' := t[..|t| - 1];
      var x := t[|t| - 1];
      PathsToCreateAppend(s, t', uids);
      assert s + t == (s + t') + [x];
      assert t == t' + [x];
      CreateStep(s + t', x, uids);
      CreateStep(t', x, uids);
      var before, left, right, added :=
        PathsToCreate(s + t', uids), PathsToCreate(s, uids), PathsToCreate(t', uids), Created(x, uids);
      assert before + added == left + (right + added);
    }
  }

  /**
   * With the final uid map fixed, a raw occurrence of a root-level path that
   * is a key of the map adds nothing to the paths to create, wherever it
   * stands.
   */
  lemma RootUidCreatesNothing(a: seq<Path>, p: Path, b: seq<Path>, uids: map<Path, string>)
    requires p in uids && |p| == 1
    ensures PathsToCreate(a + [p] + b, uids) == PathsToCreate(a + b, uids)
  {
    PathsToCreateAppend(a + [p], b, uids);
    PathsToCreateAppend(a, [p], uids);
    PathsToCreateAppend(a, b, uids);
    CreateStep([], p, uids);
    assert [] + [p] == [p];
  }

  /**
   * With the final uid map fixed, a raw occurrence of a root-level path that
   * is a key of the map is attached nowhere, wherever it stands.
   */
  lemma {:induction false} RootUidAttachesNothing(a: seq<Path>, p: Path, b: seq<Path>, uids: map<Path, string>)
    requires p in uids && |p| == 1
    ensures ExternalChildren(a + [p] + b, uids) == ExternalChildren(a + b, uids)
  {
    if b == [] {
      AttachStep(a, p, uids);
      assert a + [p] + b == a + [p];
      assert a + b == a;
    } else {
      var b' := b[..|b| - 1];
      var x := b[|b| - 1];
      var with, without := a + [p] + b', a + b';
      RootUidAttachesNothing(a, p, b', uids);
      assert a + [p] + b == with + [x];
      assert a + b == without + [x];
      AttachStep(with, x, uids);
      AttachStep(without, x, uids);
    }
  }

  /**
   * The external children under a parent path are the uids of the raw
   * paths directly below it that carry a uid, one per occurrence, in row
   * order; a parent is a key only when it has at least one.
   */
  lemma {:induction false} ExternalChildrenByParent(raw: seq<Path>, uids: map<Path, string>, parent: Path)
    ensures parent in ExternalChildren(raw, uids) <==> AttachedUids(raw, uids, parent) != []
    ensures parent in ExternalChildren(raw, uids) ==>
      ExternalChildren(raw, uids)[parent] == AttachedUids(raw, uids, parent)
  {
    if raw != [] {
      ExternalChildrenByParent(raw[..|raw| - 1], uids, parent);
    }
  }

  /** Every parent path holding external children is itself created. */
  lemma {:induction false} ExternalChildrenParentsCreated(raw: seq<Path>, uids: map<Path, string>)
    ensures forall k :: k in ExternalChildren(raw, uids) ==> |k| >= 1 && k in PathsToCreate(raw, uids)
  {
    if raw != [] {
      ExternalChildrenParentsCreated(raw[..|raw| - 1], uids);
      var last := raw[|raw| - 1];
      if last in uids && |last| > 1 {
        NonEmptyPrefixesShape(last[..|last| - 1]);
      }
    }
  }

  /** Created paths are made of segments of raw paths. */
  lemma CreatedSegmentsFromRaw(raw: seq<Path>, uids: map<Path, string>)
    requires forall p, seg :: p in raw && seg in p ==> WellFormedSegment(seg)
    ensures forall p, seg :: p in PathsToCreate(raw, uids) && seg in p ==> WellFormedSegment(seg)
  {
    PathsToCreateSound(raw, uids);
    forall p, seg | p in PathsToCreate(raw, uids) && seg in p
      ensures WellFormedSegment(seg)
    {
      if !(p in raw) {
        var r :| r in raw && StrictAncestor(p, r);
        var i :| 0 <= i < |p| && p[i] == seg;
        assert r[i] == seg;
      }
    }
  }

  /** Every created path of parsed rows is a non-empty tuple of well-formed segments. */
  lemma ParsedPathsWellFormed(rows: seq<Row>)
    ensures forall p, seg ::
      p in PathsToCreate(RawPaths(Entries(rows)), ColumnMap(Entries(rows), UidColumn)) && seg in p ==>
      WellFormedSegment(seg)
  {
    RawPathSegmentsWellFormed(rows);
    CreatedSegmentsFromRaw(RawPaths(Entries(rows)), ColumnMap(Entries(rows), UidColumn));
  }

  /**
   * The worked example of a uid in the middle of a hierarchy, for any
   * segment names: rows `A`, `A\B` carrying a uid, `A\B\C` and
   * `A\B\C\D`. `A\B` is still created, as the ancestor of the rows below it.
   */
  lemma UidMidPathCreated(a: string, b: string, c: string, d: string, uid: string)
    ensures PathsToCreate([[a], [a, b], [a, b, c], [a, b, c, d]], map[[a, b] := uid])
      == {[a], [a, b], [a, b, c], [a, b, c, d]}
  {
    var pa, pab, pabc, pabcd := [a], [a, b], [a, b, c], [a, b, c, d];
    var uids := map[pab := uid];
    assert [] + [pa] == [pa] && [pa] + [pab] == [pa, pab] && [pa, pab] + [pabc] == [pa, pab, pabc];
    assert [pa, pab, pabc] + [pabcd] == [pa, pab, pabc, pabcd];
    CreateStep([], pa, uids);
    CreateStep([pa], pab, uids);
    CreateStep([pa, pab], pabc, uids);
    CreateStep([pa, pab, pabc], pabcd, uids);
    PrefixesOfFour(a, b, c, d);
    assert pab[..1] == pa;
  }

  /** The non-empty prefixes of a path of four segments, and of its own prefixes. */
  lemma PrefixesOfFour(a: string, b: string, c: string, d: string)
    ensures NonEmptyPrefixes([a]) == {[a]}
    ensures NonEmptyPrefixes([a, b]) == {[a], [a, b]}
    ensures NonEmptyPrefixes([a, b, c]) == {[a], [a, b], [a, b, c]}
    ensures NonEmptyPrefixes([a, b, c, d]) == {[a], [a, b], [a, b, c], [a, b, c, d]}
  {
    var pa, pab, pabc, pabcd := [a], [a, b], [a, b, c], [a, b, c, d];
    NonEmptyPrefixesStep(pa);
    assert pa[..0] == [] && NonEmptyPrefixes([]) == {};
    NonEmptyPrefixesStep(pab);
    assert pab[..1] == pa;
    NonEmptyPrefixesStep(pabc);
    assert pabc[..2] == pab;
    NonEmptyPrefixesStep(pabcd);
    assert pabcd[..3] == pabc;
  }

  /** In the same example the uid is listed under `A`, the parent of `A\B`. */
  lemma UidMidPathAttached(a: string, b: string, c: string, d: string, uid: string)
    ensures ExternalChildren([[a], [a, b], [a, b, c], [a, b, c, d]], map[[a, b] := uid])
      == map[[a] := [uid]]
  {
    var pa, pab, pabc, pabcd := [a], [a, b], [a, b, c], [a, b, c, d];
    var uids := map[pab := uid];
    assert pa != pab && pabc != pab && pabcd != pab;
    assert [] + [pa] == [pa] && [pa] + [pab] == [pa, pab] && [pa, pab] + [pabc] == [pa, pab, pabc];
    assert [pa, pab, pabc] + [pabcd] == [pa, pab, pabc, pabcd];
    AttachStep([], pa, uids);
    AttachStep([pa], pab, uids);
    AttachStep([pa, pab], pabc, uids);
    AttachStep([pa, pab, pabc], pabcd, uids);
    assert pab[..|pab| - 1] == pa;
    assert ExternalChildren([pa], uids) == map[];
    assert pab in uids && |pab| > 1 && uids[pab] == uid && [] + [uid] == [uid];
    assert ExternalChildren([pa, pab], uids) == map[][pa := [uid]];
  }

  /**
   * A path given twice, first with uid `u1` and then with cell `u2`: the
   * lookup goes through the final uid map, so both occurrences list the
   * last non-empty uid under `A`, and `A\B` is not created even when the
   * second row has no uid.
   */
  lemma RepeatedUidRows(a: string, b: string, u1: string, u2: string)
    requires u1 != ""
    ensures var es := [Entry([a, b], u1, ""), Entry([a, b], u2, "")];
      var uids := ColumnMap(es, UidColumn);
      var last := if u2 != "" then u2 else u1;
      uids == map[[a, b] := last]
      && ExternalChildren(RawPaths(es), uids) == map[[a] := [last, last]]
      && PathsToCreate(RawPaths(es), uids) == {[a]}
  {
    var pab := [a, b];
    var e1, e2 := Entry(pab, u1, ""), Entry(pab, u2, "");
    var es := [e1, e2];
    var last := if u2 != "" then u2 else u1;
    var first: seq<Entry> := [e1];
    assert es[..1] == first && first[..0] == [];
    assert ColumnMap([e1], UidColumn) == map[pab := u1];
    var uids := ColumnMap(es, UidColumn);
    assert uids == map[pab := last];
    assert RawPaths([e1]) == [pab];
    assert RawPaths(es) == [pab, pab];
    var one: seq<Path> := [pab];
    assert [pab, pab][..1] == one && one[..0] == [];
    assert pab[..|pab| - 1] == [a];
    var pa := [a];
    assert [] + [pab] == [pab] && [pab] + [pab] == [pab, pab];
    AttachStep([], pab, uids);
    AttachStep([pab], pab, uids);
    assert pab in uids && |pab| > 1 && uids[pab] == last && [] + [last] == [last];
    assert ExternalChildren([pab], uids) == map[][pa := [last]];
    assert ExternalChildren([pab, pab], uids) == map[pa := [last]][pa := [last] + [last]];
    assert [last] + [last] == [last, last];
    assert map[pa := [last]][pa := [last, last]] == map[[a] := [last, last]];
    PrefixesOfFour(a, b, b, b);
    assert PathsToCreate([pab], uids) == {[a]};
  }

  /**
   * A uid row for root `X` also stops every other row naming `X` from
   * creating it: rows `X` without a uid and `X` with uid `u` create nothing
   * and attach nothing, while the first row alone creates `X`.
   */
  lemma RootUidRows(x: string, u: string)
    requires u != ""
    ensures var es := [Entry([x], "", ""), Entry([x], u, "")];
      var uids := ColumnMap(es, UidColumn);
      uids == map[[x] := u]
      && PathsToCreate(RawPaths(es), uids) == {}
      && ExternalChildren(RawPaths(es), uids) == map[]
    ensures PathsToCreate(RawPaths([Entry([x], "", "")]), ColumnMap([Entry([x], "", "")], UidColumn)) == {[x]}
  {
    var px := [x];
    var e1, e2 := Entry(px, "", ""), Entry(px, u, "");
    var es := [e1, e2];
    var first: seq<Entry> := [e1];
    assert es[..1] == first && first[..0] == [];
    assert ColumnMap(first, UidColumn) == map[];
    var uids := ColumnMap(es, UidColumn);
    assert uids == map[px := u];
    assert RawPaths(first) == [px];
    assert RawPaths(es) == [px, px];
    var one: seq<Path> := [px];
    assert [px, px][..1] == one && one[..0] == [];
    assert [] + [px] == [px] && [px] + [px] == [px, px];
    CreateStep([], px, uids);
    CreateStep([px], px, uids);
    AttachStep([], px, uids);
    AttachStep([px], px, uids);
    CreateStep([], px, map[]);
    PrefixesOfFour(x, x, x, x);
  }
}

# Hierarchy engine of the equipment-to-CIM converter, in Dafny

This project models the two parts of the converter that turn path-encoded equipment rows into
an RDF/XML object tree, and proves properties of both.

- **`HierarchyParser.parse`** (`hierarchy_parser.dfy`, module `HierarchyParser`).
  - It takes rows `(path text, uid, inventory code)` and splits each path text `A\B\C` on the
    backslash into stripped, non-empty segments. A row whose path yields no segment is ignored.
  - It builds the path-to-uid and path-to-code (ККС/CCK) maps.
  - It computes the set of paths to create, closed over non-empty prefixes.
  - A path that carries its own uid stands for an object that already exists, and its uid is
    attached to the parent path, which is created. The
    lookup goes through the final path-to-uid map, not through the row: every raw occurrence of a
    path that is a key of that map adds one entry under its parent path, each entry the last uid
    given to that path, and such a path is not created on its own account. The parent and all its
    ancestors are created. An occurrence of a root-level path with a uid adds nothing; since the
    lookup goes through the map, a uid row for root `X` also stops every other row naming `X`
    from creating it (`RootUidRows`).
- **`XMLGenerator.generate`** (`xml_generator.dfy`, module `XmlGenerator`).
  - It rejects an empty path list.
  - It rebuilds `children_map` and `parent_map` from the membership of consecutive prefixes, and
    draws one id `#_<uuid>` per node.
  - It writes the XML declaration, the `rdf:RDF` opening tag and the `FullModel` block.
  - It drains a FIFO queue that first holds every path, with a processed set, emitting one element
    per node. The element is `cim:AssetContainer` for roots and for nodes with a child, and
    `me:GenericPSR` otherwise. Its parent reference is chosen by a fixed priority; it also carries
    the inventory code and the child links, and each linked child is queued.
  - It closes the document.
- **`paths.dfy`** (module `Paths`) holds the shared pieces: splitting and stripping as Python's
  `str.split('\\')` and `str.strip()` do them, and sequence deduplication.
- **`xml_generator_properties.dfy`** (module `XmlGeneratorProperties`) states what the document
  promises about each node, and how the parser's output and the generator fit together.

Both source functions work by changing local state step by step. So each loop is a Dafny `method`
with a `while`/`for` loop. Each method is proved equal to a specification function: a left fold
over the rows, the paths or the children. The properties are lemmas about those functions.

The code attaches such a uid to the already created parent path, and the repository's own text
points elsewhere in three places. The docstring of `parse` (modules/hierarchy_parser.py:116) says the
returned paths are the paths to create *without* the objects that carry a uid. The comment at
modules/xml_generator.py:212-213 calls such objects virtual containers that exist only as the
`ParentObject` of their children. The note at main.py:99-101 asks that children of an object with
its own uid take that uid as their parent. The model follows the code, which differs in these ways:

- A path that carries a uid is still created when it is the ancestor of another row, contrary to
  the docstring at modules/hierarchy_parser.py:116. `UidMidPathCreated` shows this for rows `A`,
  `A\B` (with a uid), `A\B\C`, `A\B\C\D`: `A\B` is created, and the uid is listed under `A`
  (`UidMidPathAttached`). When no virtual-parent map is given, `A\B\C` then takes the generated
  id of `A\B` as its parent, not the uid (`ParsedHierarchyParents`).
- The parser produces no virtual-parent map. The generator's `parent_uid_map` is a free input.
- The generator accepts `external_children` but emits nothing for it. External children do not
  make a node a container either.

`uuid4` is replaced by a caller-supplied function `uuid` from paths to strings, and the id of `p`
is `"#_" + uuid(p)`. Uniqueness of the draws is the hypothesis `DistinctIds` wherever a property
needs it.

## Model

| member | source | states |
|---|---|---|
| Paths.Strip | modules/hierarchy_parser.py:130 | the stripped text is a slice `s[i..j]` of the input with only whitespace (Python's `isspace` set) outside it, it neither starts nor ends with whitespace, already-trimmed text is unchanged, and it is never longer |
| Paths.StripIdempotent | modules/hierarchy_parser.py:130 | stripping twice gives the same text as stripping once |
| Paths.SplitPathWellFormed | modules/hierarchy_parser.py:130 | every segment of a split path is stripped, non-empty and free of the separator |
| Paths.SplitPathJoinPath | modules/hierarchy_parser.py:130 | splitting the backslash-join of well-formed segments gives the segments back, and the empty path round-trips through "" |
| Paths.SplitPathWithoutSep | modules/hierarchy_parser.py:130 | a path text without a backslash is the single segment of its stripped text |
| Paths.Dedup | modules/xml_generator.py:134-145 | the first-occurrence deduplication has no duplicates, the same elements as its input, and is no longer |
| Paths.DedupOfNoDups | modules/xml_generator.py:134-145 | a duplicate-free list is its own deduplication |
| Paths.DedupKeepsFirstOccurrenceOrder | modules/xml_generator.py:137-145 | an element listed earlier in the deduplication occurs first earlier in the input |
| Paths.NonEmptyPrefixesShape | modules/hierarchy_parser.py:155-158 | a path's non-empty prefixes are exactly its prefixes of lengths 1 to its length, itself included |
| Paths.NonEmptyPrefixesStep | modules/hierarchy_parser.py:148-150 | the non-empty prefixes of a path are those of its parent path plus the path itself |
| HierarchyParser.Parse | modules/hierarchy_parser.py:113-161 | the uid and code maps are the row folds; the returned paths are duplicate-free and are exactly the paths to create; the external children are the fold over the raw paths |
| HierarchyParser.ReadRows | modules/hierarchy_parser.py:125-136 | the first loop yields the raw paths and both maps of the rows read so far |
| HierarchyParser.ResolvePaths | modules/hierarchy_parser.py:138-158 | the second loop yields the paths to create and the external children of the raw paths |
| HierarchyParser.AddWithAncestors | modules/hierarchy_parser.py:155-158 | adding a path with its ancestor loop adds exactly its non-empty prefixes |
| HierarchyParser.ListOf | modules/hierarchy_parser.py:160 | `list(paths_to_create)` lists every member once and nothing else |
| HierarchyParser.RawPathsOfEntries | modules/hierarchy_parser.py:129-132 | the raw paths are exactly the non-empty split paths of the rows, so a row without segments is ignored |
| HierarchyParser.RawPathSegmentsWellFormed | modules/hierarchy_parser.py:129-132 | every segment of every raw path is stripped, non-empty and free of the separator |
| HierarchyParser.ParsedPathsWellFormed | modules/hierarchy_parser.py:129-158 | every segment of every created path is stripped, non-empty and free of the separator |
| HierarchyParser.CreatedSegmentsFromRaw | modules/hierarchy_parser.py:141-158 | created paths are made only of segments that raw paths have |
| HierarchyParser.ColumnMapKeys | modules/hierarchy_parser.py:133-136 | a path is a key of the uid (code) map exactly when some row gives that non-empty path a non-empty uid (code) |
| HierarchyParser.ColumnMapLastWins | modules/hierarchy_parser.py:133-136 | a path maps to the cell of the last row that gives it one |
| HierarchyParser.PathsToCreatePrefixClosed | modules/hierarchy_parser.py:141-158 | every non-empty strict prefix of a created path is created |
| HierarchyParser.PathsToCreateComplete | modules/hierarchy_parser.py:154-158 | every raw path without a uid is created |
| HierarchyParser.PathsToCreateSound | modules/hierarchy_parser.py:141-158 | a created path is non-empty and is either a raw path without a uid or a strict prefix of a raw path; a path with a uid is created only as such a prefix |
| HierarchyParser.PathsToCreateAppend | modules/hierarchy_parser.py:141-158 | the paths created by consecutive groups of rows are the union of each group's |
| HierarchyParser.RootUidCreatesNothing | modules/hierarchy_parser.py:142-153 | with the final uid map fixed, a raw occurrence of a root-level path that is a key of the map adds nothing to the paths to create, wherever it stands |
| HierarchyParser.RootUidAttachesNothing | modules/hierarchy_parser.py:142-153 | with the final uid map fixed, a raw occurrence of a root-level path that is a key of the map adds nothing to the external children, wherever it stands |
| HierarchyParser.RootUidRows | modules/hierarchy_parser.py:129-158 | rows `X` without a uid and `X` with uid `u` create nothing and attach nothing, because the uid row makes `X` a key of the uid map; the first row alone creates `X` |
| HierarchyParser.ExternalChildrenByParent | modules/hierarchy_parser.py:141-146 | the external children of a parent hold one entry per raw occurrence, in row order, of a path directly below it that is a key of the final path-to-uid map, each entry that path's last uid; a parent is a key only when it has one |
| HierarchyParser.ExternalChildrenParentsCreated | modules/hierarchy_parser.py:143-150 | every key of the external children is a non-empty created path |
| HierarchyParser.UidMidPathCreated | modules/hierarchy_parser.py:141-158 | for rows `A`, `A\B` with a uid, `A\B\C`, `A\B\C\D`, all four paths are created, `A\B` included |
| HierarchyParser.UidMidPathAttached | modules/hierarchy_parser.py:142-147 | for the same rows, the uid is the only external child, listed under `A` |
| HierarchyParser.RepeatedUidRows | modules/hierarchy_parser.py:129-147 | rows `A\B` with uid `u1` then `A\B` with cell `u2`: the uid map holds the last non-empty uid, both occurrences list it under `A` (`[u2, u2]`, or `[u1, u1]` when `u2` is empty), and only `A` is created |
| XmlGenerator.GenerateIdShape | modules/xml_generator.py:46-58 | an id starts with `#_`, and equal ids come from equal uuid draws |
| XmlGenerator.ReconstructEdges | modules/xml_generator.py:93-106 | the nested edge loops compute the edge fold over the paths |
| XmlGenerator.TreeShape | modules/xml_generator.py:99-106 | `children_map[p]` lists, once each and never empty, exactly the paths one segment below `p`; `parent_map` maps exactly the paths whose parent path is listed, each to that parent path |
| XmlGenerator.OpenRdf | modules/xml_generator.py:117-122 | the opening tag carries one `xmlns:` attribute per namespace entry, in order |
| XmlGenerator.LinkedChildrenFrom | modules/xml_generator.py:203-206 | only listed children of the node are linked |
| XmlGenerator.AppendChildLinks | modules/xml_generator.py:198-211 | the child loop appends one link per child that has an id whose id is not yet linked, and queues exactly those children |
| XmlGenerator.ResolveParent | modules/xml_generator.py:164-173 | over the reconstructed tree, the parent resource is the given parent uid for a root; else `#_` and the virtual-parent uid for a path in that map; else the id of the path without its last segment when both are listed; else the given parent uid |
| XmlGenerator.AppendObject | modules/xml_generator.py:147-222 | the loop body for a new node appends exactly that node's element and queues exactly its linked children |
| XmlGenerator.AppendContents | modules/xml_generator.py:186-222 | the code line, the child links and the closing tag are appended, and the linked children queued |
| XmlGenerator.EmitObjects | modules/xml_generator.py:133-222 | the queue loop terminates; it fails if an empty path is listed, and otherwise appends the element of each path the first time it comes off the queue |
| XmlGenerator.EmittedIsDedup | modules/xml_generator.py:134-145 | what the queue loop writes is the elements of the distinct paths in first-occurrence order, because every listed path is dequeued before any re-queued child |
| XmlGenerator.Generate | modules/xml_generator.py:60-226 | `generate` fails on an empty path list and on a listed empty path, and otherwise returns the newline-joined document of the prolog, the elements of the distinct paths and the closing tag |
| XmlGeneratorProperties.CategoryRule | modules/xml_generator.py:148-157 | a node is `cim:AssetContainer` exactly when it is a root or some listed path lies one segment below it |
| XmlGeneratorProperties.ParentRefPriority | modules/xml_generator.py:164-173 | the parent reference is the root parent uid for a root; otherwise the virtual parent's `#_` uid if mapped; otherwise the id of the parent path if both are listed; otherwise the root parent uid |
| XmlGeneratorProperties.LinkedIdsDistinct | modules/xml_generator.py:200-210 | the ids linked from a children list never repeat |
| XmlGeneratorProperties.LinkedAllWhenDistinct | modules/xml_generator.py:203-211 | with distinct uuids, every child of a duplicate-free list of listed paths is linked, in list order |
| XmlGeneratorProperties.LinkedKidsDistinct | modules/xml_generator.py:198-211 | a node's links never repeat an id, and a `me:GenericPSR` node links nothing |
| XmlGeneratorProperties.LinkedKidsAll | modules/xml_generator.py:198-211 | with distinct uuids, a node links and queues exactly its `children_map` list, in order |
| XmlGeneratorProperties.LinkedKidsExact | modules/xml_generator.py:198-211 | with distinct uuids, the ids a node links are exactly the ids of the paths one segment below it |
| XmlGeneratorProperties.ChildLinks | modules/xml_generator.py:198-220 | an element's `ChildObjects` links never repeat and are empty for a leaf; with distinct uuids they are exactly the ids of its reconstructed children; external children add none: `ChildLinks` does not state this; it follows from `Generate`'s ensures, which ties the document to `Rendered` of inputs that leave out its `externalChildren` parameter |
| XmlGeneratorProperties.RenderFrame | modules/xml_generator.py:159-196 | an element opens and closes with tags of the same name, has its name, the same parent reference on `ParentObject` and on the category's link, and a code line exactly when it has a code |
| XmlGeneratorProperties.RenderChildLines | modules/xml_generator.py:198-210 | after the code line an element has one `ChildObjects` line per link, in order |
| XmlGeneratorProperties.ElementBlock | modules/xml_generator.py:147-196 | a node's element is tagged by its category, carries its id and last segment, and has the code line (`mRIDStr` for a container, `ccsCode` for a leaf) exactly when its code is present and non-empty |
| XmlGeneratorProperties.EmittedOnce | modules/xml_generator.py:133-145 | every listed path has an element and every element belongs to a listed path; with distinct uuids no two elements carry the same id |
| XmlGeneratorProperties.Framing | modules/xml_generator.py:112-131 | the document lines are the three declarations, the `rdf:RDF` tag, the five `FullModel` lines, the elements and `</rdf:RDF>`, in that order |
| XmlGeneratorProperties.DocumentFraming | modules/xml_generator.py:86-131 | no paths gives the no-data error, a listed empty path the index error; otherwise the document is the prolog, the queue loop's elements and the closing tag |
| XmlGeneratorProperties.ParsedHierarchyParents | modules/hierarchy_parser.py:138-161 | the parsed paths are non-empty and prefix-closed; given to the generator without a virtual-parent map, every non-root element points at its parent path's id, and that parent is a container |

## Left out

- `HierarchyParser._read_lines` (file reading, encoding trials, delimiter sniffing, the fallback
  test rows) is file I/O. `Parse` takes the rows it would deliver.
- `main.py` is not part of this model: it is interactive input, directory handling, file writing
  and logging. Its call to `generate` passes a `uid_map=` keyword that `generate` does not accept.
  It also never passes `parent_uid_map`. The generator's maps are free inputs here.
- The randomness of `uuid4` is not modelled. The `uuid` parameter stands for the draws.
- XmlGenerator.GenerateIdShape: the uniqueness of uuid4 draws is not proved. It is the hypothesis
  `DistinctIds` of the lemmas that need it, because it is a probabilistic property of the library.
- Configuration loading and logging are left out. The namespaces and model values are the
  `Config` parameter, with the namespaces as a list of pairs in the dictionary's order. The
  warning for a root-level path with a uid is not modelled.
- XML escaping is left out: names and codes are interpolated raw in the source and in the model,
  so nothing is claimed about well-formedness for arbitrary text.
- The `virtual_containers` and `external_children` parameters are accepted and ignored, as in the
  source. The commented-out external-child emission is not modelled.
- `None` arguments (`cck_map or {}` and the like) are left out: the model's maps are always
  present.
- The iteration order of a Python set is left out: `ListOf` may list the paths in any order, and
  every property of the generator holds for any order.
- The loop that puts every path on the queue is modelled as the queue starting as the path list.
- XmlGenerator.ReconstructEdges: its contract ties the result to the edge fold. The exact shape of
  the children and parent maps is proved separately, for that fold, by `TreeShape`.
- XmlGenerator.Generate: the text of the `ValueError` and the point at which an empty path raises
  are not modelled; the result is only the error kind.
- XmlGeneratorProperties.ParsedHierarchyParents: stated for an empty virtual-parent map only,
  since the parser produces none.

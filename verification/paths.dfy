/**
 * Hierarchy paths: a row's path text `A\B\C` is split on the backslash,
 * every piece is stripped of surrounding whitespace and empty pieces are
 * dropped, giving the tuple of segments that keys every hierarchy node.
 * Also the sequence helpers shared by the parser and the generator.
 */
module Paths {

  type Path = seq<string>

  /** The separator between path segments. */
  const Sep: char := '\\'

  // ---------------------------------------------------------------------
  // Sequences without duplicates, and first-occurrence deduplication

  predicate NoDups<T(==)>(s: seq<T>) {
    forall i, j :: 0 <= i < j < |s| ==> s[i] != s[j]
  }

  function Elems<T>(s: seq<T>): set<T> {
    set x | x in s
  }

  /** `s` with every element after its first occurrence removed. */
  function Dedup<T(==)>(s: seq<T>): (d: seq<T>)
    ensures NoDups(d)
    ensures Elems(d) == Elems(s)
    ensures |d| <= |s|
  {
    if s == [] then []
    else
      var init := Dedup(s[..|s| - 1]);
      assert s == s[..|s| - 1] + [s[|s| - 1]];
      assert Elems(s) == Elems(s[..|s| - 1]) + {s[|s| - 1]};
      if s[|s| - 1] in init then init else init + [s[|s| - 1]]
  }

  /** Index of the first occurrence of `x` in `s`. */
  function FirstIndex<T(==)>(s: seq<T>, x: T): (i: nat)
    requires x in s
    ensures i < |s| && s[i] == x && x !in s[..i]
  {
    if s[0] == x then 0 else 1 + FirstIndex(s[1..], x)
  }

  lemma {:induction false} FirstIndexOfExtension<T>(s: seq<T>, y: T, x: T)
    requires x in s
    ensures x in s + [y] && FirstIndex(s + [y], x) == FirstIndex(s, x)
  {
    if s[0] != x {
      assert (s + [y])[1..] == s[1..] + [y];
      FirstIndexOfExtension(s[1..], y, x);
    }
  }

  lemma AppendAssoc<T>(a: seq<T>, b: seq<T>, c: seq<T>)
    ensures a + b + c == a + (b + c)
  {
  }

  /** Growing a prefix by one element. */
  lemma PrefixStep<T>(s: seq<T>, i: nat)
    requires i < |s|
    ensures s[..i + 1] == s[..i] + [s[i]]
    ensures Elems(s[..i + 1]) == Elems(s[..i]) + {s[i]}
  {
    assert s[..i + 1] == s[..i] + [s[i]];
  }

  /** Dedup over a growing prefix: an element seen before adds nothing, a new one is appended. */
  lemma DedupStep<T>(s: seq<T>, i: nat)
    requires i < |s|
    ensures Dedup(s[..i + 1]) == if s[i] in s[..i] then Dedup(s[..i]) else Dedup(s[..i]) + [s[i]]
  {
    var t := s[..i + 1];
    assert t[..|t| - 1] == s[..i] && t[|t| - 1] == s[i];
    assert s[i] in Dedup(s[..i]) <==> s[i] in s[..i] by {
      assert Elems(Dedup(s[..i])) == Elems(s[..i]);
      assert s[i] in Dedup(s[..i]) <==> s[i] in Elems(Dedup(s[..i]));
      assert s[i] in s[..i] <==> s[i] in Elems(s[..i]);
    }
  }

  /** A sequence that has no duplicates is its own deduplication. */
  lemma {:induction false} DedupOfNoDups<T>(s: seq<T>)
    requires NoDups(s)
    ensures Dedup(s) == s
  {
    if s != [] {
      var init := s[..|s| - 1];
      DedupOfNoDups(init);
      assert s[|s| - 1] !in init;
      assert init + [s[|s| - 1]] == s;
    }
  }

  /**
   * Dedup keeps first-occurrence order: an element listed earlier in the
   * result first occurs earlier in the input.
   */
  lemma {:induction false} DedupKeepsFirstOccurrenceOrder<T>(s: seq<T>, i: nat, j: nat)
    requires i < j < |Dedup(s)|
    ensures Dedup(s)[i] in s && Dedup(s)[j] in s
    ensures FirstIndex(s, Dedup(s)[i]) < FirstIndex(s, Dedup(s)[j])
  {
    var d := Dedup(s);
    assert d[i] in Elems(d) && d[j] in Elems(d);
    var init := s[..|s| - 1];
    var last := s[|s| - 1];
    assert s == init + [last];
    var di := Dedup(init);
    assert d[i] in di by {
      assert d == di || d == di + [last];
    }
    assert d[i] in Elems(di);
    FirstIndexOfExtension(init, last, d[i]);
    if d == di {
      assert d[j] in Elems(di);
      FirstIndexOfExtension(init, last, d[j]);
      DedupKeepsFirstOccurrenceOrder(init, i, j);
    } else {
      assert last !in di;
      if j < |di| {
        assert d[j] == di[j];
        assert d[j] in Elems(di);
        FirstIndexOfExtension(init, last, d[j]);
        DedupKeepsFirstOccurrenceOrder(init, i, j);
      } else {
        assert d[j] == last;
        assert last !in Elems(init);
        assert FirstIndex(s, last) == |init| by {
          assert s[|init|] == last;
          assert s[..|init|] == init;
        }
      }
    }
  }

  // ---------------------------------------------------------------------
  // Prefixes

  /** The non-empty prefixes of `p`, `p` itself included. */
  function NonEmptyPrefixes(p: Path): set<Path> {
    set i | 1 <= i <= |p| :: p[..i]
  }

  /** Its members are exactly the prefixes of lengths 1 to `|p|`. */
  lemma NonEmptyPrefixesShape(p: Path)
    ensures forall q :: q in NonEmptyPrefixes(p) <==> 1 <= |q| <= |p| && q == p[..|q|]
    ensures |p| >= 1 ==> p in NonEmptyPrefixes(p)
  {
    assert |p| >= 1 ==> p[..|p|] == p;
    forall q | 1 <= |q| <= |p| && q == p[..|q|]
      ensures q in NonEmptyPrefixes(p)
    {
    }
  }

  /** The non-empty prefixes of `p` are those of `p` without its last element, and `p`. */
  lemma NonEmptyPrefixesStep(p: Path)
    requires |p| >= 1
    ensures NonEmptyPrefixes(p) == NonEmptyPrefixes(p[..|p| - 1]) + {p}
  {
    var init := p[..|p| - 1];
    NonEmptyPrefixesShape(p);
    NonEmptyPrefixesShape(init);
    forall q | q in NonEmptyPrefixes(p) && q != p
      ensures q in NonEmptyPrefixes(init)
    {
      assert q == init[..|q|];
    }
    forall q | q in NonEmptyPrefixes(init)
      ensures q in NonEmptyPrefixes(p)
    {
      assert q == p[..|q|];
    }
  }

  /** `q` is a non-empty strict prefix of `p`. */
  predicate StrictAncestor(q: Path, p: Path) {
    1 <= |q| < |p| && p[..|q|] == q
  }

  /** Every non-empty strict prefix of a member is a member. */
  ghost predicate PrefixClosed(s: set<Path>) {
    forall p, i :: p in s && 1 <= i < |p| ==> p[..i] in s
  }

  // ---------------------------------------------------------------------
  // Whitespace stripping, as Python's str.strip() with no argument

  /** The characters Python's str.isspace() accepts. */
  predicate IsSpace(c: char) {
    c == ' ' || ('\t' <= c <= '\r') || ('\U{1C}' <= c <= '\U{1F}')
    || c == '\U{85}' || c == '\U{A0}' || c == '\U{1680}'
    || ('\U{2000}' <= c <= '\U{200A}') || c == '\U{2028}' || c == '\U{2029}'
    || c == '\U{202F}' || c == '\U{205F}' || c == '\U{3000}'
  }

  /** `s` neither starts nor ends with whitespace. */
  predicate Trimmed(s: string) {
    s == [] || (!IsSpace(s[0]) && !IsSpace(s[|s| - 1]))
  }

  /** Leading whitespace removed, and nothing else. */
  function TrimStart(s: string): (r: string)
    ensures r == [] || !IsSpace(r[0])
    ensures |r| <= |s| && r == s[|s| - |r|..]
    ensures forall k :: 0 <= k < |s| - |r| ==> IsSpace(s[k])
    ensures s != [] && !IsSpace(s[0]) ==> r == s
  {
    if |s| > 0 && IsSpace(s[0]) then TrimStart(s[1..]) else s
  }

  /** Trailing whitespace removed, and nothing else. */
  function TrimEnd(s: string): (r: string)
    ensures r == [] || !IsSpace(r[|r| - 1])
    ensures |r| <= |s| && r == s[..|r|]
    ensures forall k :: |r| <= k < |s| ==> IsSpace(s[k])
    ensures s != [] && !IsSpace(s[|s| - 1]) ==> r == s
  {
    if |s| > 0 && IsSpace(s[|s| - 1]) then TrimEnd(s[..|s| - 1]) else s
  }

  /** Leading and trailing whitespace removed. */
  function Strip(s: string): (r: string)
    ensures Trimmed(r)
    ensures exists i, j :: (0 <= i <= j <= |s| && r == s[i..j]
      && (forall k :: 0 <= k < i ==> IsSpace(s[k]))
      && (forall k :: j <= k < |s| ==> IsSpace(s[k])))
    ensures Trimmed(s) ==> r == s
    ensures |r| <= |s|
  {
    var t := TrimStart(s);
    var r := TrimEnd(t);
    assert r != [] ==> r[0] == t[0];
    var i := |s| - |t|;
    var j := i + |r|;
    assert t == s[i..];
    assert r == s[i..j];
    forall k | j <= k < |s| ensures IsSpace(s[k]) {
      assert s[k] == t[k - i];
    }
    r
  }

  /** Stripping only removes characters: what remains was in `s`. */
  lemma StripKeepsChars(s: string, c: char)
    requires c in Strip(s)
    ensures c in s
  {
    var t := TrimStart(s);
    assert c in t;
  }

  lemma StripIdempotent(s: string)
    ensures Strip(Strip(s)) == Strip(s)
  {
  }

  // ---------------------------------------------------------------------
  // Splitting on the separator, as Python's str.split('\\')

  function IndexOfSep(s: string): (i: nat)
    requires Sep in s
    ensures i < |s| && s[i] == Sep && Sep !in s[..i]
  {
    if s[0] == Sep then 0 else 1 + IndexOfSep(s[1..])
  }

  /** The pieces between separators; never empty (`Split("") == [""]`). */
  function Split(s: string): (r: seq<string>)
    ensures |r| >= 1
    decreases |s|
  {
    if Sep !in s then [s]
    else
      var i := IndexOfSep(s);
      [s[..i]] + Split(s[i + 1..])
  }

  lemma {:induction false} SplitPiecesHaveNoSep(s: string)
    ensures forall piece :: piece in Split(s) ==> Sep !in piece
    decreases |s|
  {
    if Sep in s {
      SplitPiecesHaveNoSep(s[IndexOfSep(s) + 1..]);
    }
  }

  /** The stripped pieces that are not empty, in order. */
  function Segments(pieces: seq<string>): (r: Path)
    ensures |r| <= |pieces|
  {
    if pieces == [] then []
    else
      var seg := Strip(pieces[0]);
      (if seg != "" then [seg] else []) + Segments(pieces[1..])
  }

  lemma {:induction false} SegmentsWellFormed(pieces: seq<string>)
    requires forall piece :: piece in pieces ==> Sep !in piece
    ensures forall seg :: seg in Segments(pieces) ==> WellFormedSegment(seg)
  {
    if pieces != [] {
      SegmentsWellFormed(pieces[1..]);
      var seg := Strip(pieces[0]);
      if Sep in seg {
        StripKeepsChars(pieces[0], Sep);
      }
    }
  }

  /** The segments of a row's path text. */
  function SplitPath(line: string): Path {
    Segments(Split(line))
  }

  /** Every segment of a split path is stripped, non-empty and holds no separator. */
  lemma SplitPathWellFormed(line: string)
    ensures forall seg :: seg in SplitPath(line) ==> WellFormedSegment(seg)
  {
    SplitPiecesHaveNoSep(line);
    SegmentsWellFormed(Split(line));
  }

  /** The segments joined by the separator, as `'\\'.join(path)`. */
  function JoinPath(p: Path): string {
    if |p| == 0 then ""
    else if |p| == 1 then p[0]
    else p[0] + [Sep] + JoinPath(p[1..])
  }

  /** A segment as the splitter produces it. */
  predicate WellFormedSegment(seg: string) {
    seg != "" && Trimmed(seg) && Sep !in seg
  }

  /** A separator with none before it is the first one. */
  lemma FirstSepAt(s: string, n: nat)
    requires n < |s| && s[n] == Sep && Sep !in s[..n]
    ensures Sep in s && IndexOfSep(s) == n
  {
    assert s[n] in s;
    var i := IndexOfSep(s);
    assert forall j :: 0 <= j < n ==> s[..n][j] == s[j];
    assert forall j :: 0 <= j < i ==> s[..i][j] == s[j];
  }

  lemma {:induction false} SplitJoin(p: Path)
    requires |p| >= 1
    requires forall seg :: seg in p ==> Sep !in seg
    ensures Split(JoinPath(p)) == p
  {
    if |p| > 1 {
      var s := JoinPath(p);
      var rest := JoinPath(p[1..]);
      assert s == p[0] + [Sep] + rest;
      var n := |p[0]|;
      assert p[0] in p && s[..n] == p[0] && s[n] == Sep;
      FirstSepAt(s, n);
      assert s[n + 1..] == rest;
      SplitJoin(p[1..]);
      assert p == [p[0]] + p[1..];
    }
  }

  lemma {:induction false} SegmentsOfWellFormed(p: Path)
    requires forall seg :: seg in p ==> WellFormedSegment(seg)
    ensures Segments(p) == p
  {
    if p != [] {
      assert WellFormedSegment(p[0]);
      SegmentsOfWellFormed(p[1..]);
      assert p == [p[0]] + p[1..];
    }
  }

  /**
   * Splitting the joined text of well-formed segments gives the segments
   * back; the empty path joins to "" and splits back to no segments.
   */
  lemma SplitPathJoinPath(p: Path)
    requires forall seg :: seg in p ==> WellFormedSegment(seg)
    ensures SplitPath(JoinPath(p)) == p
  {
    if p == [] {
      assert Split("") == [""];
      assert Segments([""]) == Segments([]) + Segments([]);
    } else {
      SplitJoin(p);
      SegmentsOfWellFormed(p);
    }
  }

  /** A row path whose text holds no separator is its stripped text alone. */
  lemma SplitPathWithoutSep(line: string)
    requires Sep !in line && Strip(line) != ""
    ensures SplitPath(line) == [Strip(line)]
  {
    assert Split(line) == [line];
    assert Segments([line]) == [Strip(line)] + Segments([]);
  }
}

/**
 * The index bookkeeping of the icosphere that `DepthmapRenderer::createSphere`
 * builds: an edge table that hands out one midpoint vertex per edge
 * (`search_midpoint`), the split of every face into four (`subdivide`), and
 * the repeated subdivision of an icosahedron. Vertex coordinates are not
 * modelled; a vertex is its index.
 */
module DepthmapRenderer {
  import opened Wrappers

  // ---------------------------------------------------------------------
  // The edge table (depthmapRenderer.cpp:14-53)
  // ---------------------------------------------------------------------

  /** One open edge: its two corners and the index of its midpoint vertex. */
  datatype Edge = Edge(start: int, end: int, midpoint: int)

  /** An entry stands for the edge between `a` and `b`, in either orientation. */
  predicate Matches(e: Edge, a: int, b: int) {
    (e.start == a && e.end == b) || (e.start == b && e.end == a)
  }

  function FirstMatchFrom(table: seq<Edge>, a: int, b: int, j: nat): (r: Option<nat>)
    requires j <= |table|
    ensures r.Some? ==> j <= r.value < |table| && Matches(table[r.value], a, b)
    ensures r.Some? ==> forall i :: j <= i < r.value ==> !Matches(table[i], a, b)
    ensures r.None? ==> forall i :: j <= i < |table| ==> !Matches(table[i], a, b)
    decreases |table| - j
  {
    if j == |table| then None
    else if Matches(table[j], a, b) then Some(j)
    else FirstMatchFrom(table, a, b, j + 1)
  }

  /** The first entry for the edge between `a` and `b`, if any. */
  function FirstMatch(table: seq<Edge>, a: int, b: int): (r: Option<nat>)
    ensures r.Some? ==> r.value < |table| && Matches(table[r.value], a, b)
    ensures r.Some? ==> forall i :: 0 <= i < r.value ==> !Matches(table[i], a, b)
    ensures r.None? ==> forall i :: 0 <= i < |table| ==> !Matches(table[i], a, b)
  {
    FirstMatchFrom(table, a, b, 0)
  }

  /** What one lookup returns, and the table and vertex count it leaves. */
  datatype Lookup = Lookup(midpoint: int, table: seq<Edge>, nVertices: int)

  /**
   * A lookup of the edge between `a` and `b`, scanning the table from slot
   * `j` on: a stored edge yields its midpoint and is removed by moving the
   * last entry into its slot; a new edge is appended with the next free
   * vertex as its midpoint.
   */
  function LookupFrom(table: seq<Edge>, a: int, b: int, nVertices: int, j: nat): Lookup
    requires j <= |table|
    decreases |table| - j
  {
    if j == |table| then Lookup(nVertices, table + [Edge(a, b, nVertices)], nVertices + 1)
    else if Matches(table[j], a, b) then Lookup(table[j].midpoint, table[j := table[|table| - 1]][..|table| - 1], nVertices)
    else LookupFrom(table, a, b, nVertices, j + 1)
  }

  function LookupMidpoint(table: seq<Edge>, a: int, b: int, nVertices: int): Lookup {
    LookupFrom(table, a, b, nVertices, 0)
  }

  /** The lookup acts on the first matching slot, or appends when there is none. */
  lemma LookupCases(table: seq<Edge>, a: int, b: int, nVertices: int)
    ensures LookupMidpoint(table, a, b, nVertices) ==
      match FirstMatch(table, a, b)
      case Some(i) => Lookup(table[i].midpoint, table[i := table[|table| - 1]][..|table| - 1], nVertices)
      case None => Lookup(nVertices, table + [Edge(a, b, nVertices)], nVertices + 1)
  {
    LookupFromCases(table, a, b, nVertices, 0);
  }

  lemma {:induction false} LookupFromCases(table: seq<Edge>, a: int, b: int, nVertices: int, j: nat)
    requires j <= |table|
    ensures LookupFrom(table, a, b, nVertices, j) ==
      match FirstMatchFrom(table, a, b, j)
      case Some(i) => Lookup(table[i].midpoint, table[i := table[|table| - 1]][..|table| - 1], nVertices)
      case None => Lookup(nVertices, table + [Edge(a, b, nVertices)], nVertices + 1)
    decreases |table| - j
  {
    if j < |table| && !Matches(table[j], a, b) {
      LookupFromCases(table, a, b, nVertices, j + 1);
    }
  }

  /**
   * `search_midpoint` (lines 14-53) over the edge array `edges`, whose
   * first `edgeWalk` slots hold the open edges; the source keeps the three
   * fields of an entry in three parallel arrays `start`, `end`, `midpoint`.
   */
  method SearchMidpoint(indexStart: int, indexEnd: int, nVertices: int, edgeWalk: nat, edges: array<Edge>)
    returns (res: int, nVertices': int, edgeWalk': nat)
    requires edgeWalk < edges.Length
    modifies edges
    ensures edgeWalk' <= edgeWalk + 1
    ensures var r := LookupMidpoint(old(edges[..edgeWalk]), indexStart, indexEnd, nVertices);
      && res == r.midpoint && nVertices' == r.nVertices
      && edgeWalk' == |r.table| && edges[..edgeWalk'] == r.table
  {
    ghost var t := edges[..edgeWalk];
    var i := 0;
    while i < edgeWalk
      invariant 0 <= i <= edgeWalk
      invariant LookupFrom(t, indexStart, indexEnd, nVertices, i) == LookupMidpoint(t, indexStart, indexEnd, nVertices)
    {
      if (edges[i].start == indexStart && edges[i].end == indexEnd) || (edges[i].start == indexEnd && edges[i].end == indexStart) {
        assert t[i] == edges[i];
        res := edges[i].midpoint;
        edges[i] := edges[edgeWalk - 1];
        edgeWalk' := edgeWalk - 1;
        nVertices' := nVertices;
        assert edges[..edgeWalk'] == t[i := t[edgeWalk - 1]][..edgeWalk - 1];
        return;
      }
      i := i + 1;
    }
    edges[edgeWalk] := Edge(indexStart, indexEnd, nVertices);
    nVertices' := nVertices + 1;
    edgeWalk' := edgeWalk + 1;
    res := edges[edgeWalk' - 1].midpoint;
    assert edges[..edgeWalk'] == t + [Edge(indexStart, indexEnd, nVertices)];
  }

  /** The lookup matches a stored edge whichever way round the corners are given. */
  lemma LookupEitherOrientation(table: seq<Edge>, a: int, b: int, nVertices: int)
    ensures FirstMatch(table, a, b) == FirstMatch(table, b, a)
    ensures FirstMatch(table, a, b).Some? ==>
      LookupMidpoint(table, a, b, nVertices) == LookupMidpoint(table, b, a, nVertices)
  {
    LookupCases(table, a, b, nVertices);
    LookupCases(table, b, a, nVertices);
  }

  /** A hit returns the stored midpoint, removes that entry only, and adds no vertex. */
  lemma LookupHit(table: seq<Edge>, a: int, b: int, nVertices: int, i: nat)
    requires FirstMatch(table, a, b) == Some(i)
    ensures var r := LookupMidpoint(table, a, b, nVertices);
      && r.midpoint == table[i].midpoint
      && r.nVertices == nVertices
      && |r.table| == |table| - 1
      && (forall j :: 0 <= j < |r.table| ==> r.table[j] == if j == i then table[|table| - 1] else table[j])
      && multiset(r.table) == multiset(table) - multiset{table[i]}
  {
    LookupCases(table, a, b, nVertices);
    SwapRemove(table, i);
  }

  /** Moving the last entry into slot `i` and dropping the last slot removes exactly entry `i`. */
  lemma SwapRemove(table: seq<Edge>, i: nat)
    requires i < |table|
    ensures var r := table[i := table[|table| - 1]][..|table| - 1];
      && |r| == |table| - 1
      && (forall j :: 0 <= j < |r| ==> r[j] == if j == i then table[|table| - 1] else table[j])
      && multiset(r) == multiset(table) - multiset{table[i]}
  {
    var n := |table|;
    var swapped := table[i := table[n - 1]];
    if i < n - 1 {
      assert table == table[..i] + [table[i]] + table[i + 1..n - 1] + [table[n - 1]];
      assert swapped[..n - 1] == table[..i] + [table[n - 1]] + table[i + 1..n - 1];
    } else {
      assert table == table[..n - 1] + [table[n - 1]];
    }
  }

  /** A miss appends the edge with the next free vertex as midpoint and returns that vertex. */
  lemma LookupMiss(table: seq<Edge>, a: int, b: int, nVertices: int)
    requires FirstMatch(table, a, b).None?
    ensures var r := LookupMidpoint(table, a, b, nVertices);
      && r.midpoint == nVertices
      && r.nVertices == nVertices + 1
      && r.table == table + [Edge(a, b, nVertices)]
  {
    LookupCases(table, a, b, nVertices);
  }

  /** The table entries' midpoints lie in `[lo, hi)` and are pairwise different. */
  predicate MidpointsFresh(table: seq<Edge>, lo: int, hi: int) {
    && (forall k :: 0 <= k < |table| ==> lo <= table[k].midpoint < hi)
    && (forall k, l :: 0 <= k < l < |table| ==> table[k].midpoint != table[l].midpoint)
  }

  /** A lookup keeps the midpoints fresh and returns a vertex below the new count. */
  lemma LookupKeepsFresh(table: seq<Edge>, a: int, b: int, nVertices: int, lo: int)
    requires lo <= nVertices && MidpointsFresh(table, lo, nVertices)
    ensures var r := LookupMidpoint(table, a, b, nVertices);
      && MidpointsFresh(r.table, lo, r.nVertices)
      && lo <= r.midpoint < r.nVertices
      && nVertices <= r.nVertices <= nVertices + 1
      && |r.table| <= |table| + 1
  {
    var r := LookupMidpoint(table, a, b, nVertices);
    LookupCases(table, a, b, nVertices);
    match FirstMatch(table, a, b)
    case Some(i) =>
      var n := |table|;
      forall k | 0 <= k < |r.table| ensures exists j :: 0 <= j < n && r.table[k] == table[j] && (j == n - 1 || j == k) {
        if k == i { assert r.table[k] == table[n - 1]; } else { assert r.table[k] == table[k]; }
      }
      forall k, l | 0 <= k < l < |r.table| ensures r.table[k].midpoint != r.table[l].midpoint {
        var kk := if k == i then n - 1 else k;
        var ll := if l == i then n - 1 else l;
        assert r.table[k] == table[kk] && r.table[l] == table[ll];
      }
    case None =>
  }

  // ---------------------------------------------------------------------
  // Splitting the faces (depthmapRenderer.cpp:55-101)
  // ---------------------------------------------------------------------

  /**
   * The four faces that replace face (a, b, c), given the midpoints of its
   * edges: (a, ab, ca), (ca, ab, bc), (ca, bc, c), (ab, b, bc).
   */
  function FaceSplit(a: int, b: int, c: int, ab: int, bc: int, ca: int): seq<int> {
    [a, ab, ca, ca, ab, bc, ca, bc, c, ab, b, bc]
  }

  /** Where subdividing stands after the first faces: the edge table, the vertex count, the new faces. */
  datatype Progress = Progress(table: seq<Edge>, nVertices: int, faces: seq<int>)

  /** Face (a, b, c) split: the midpoints of (b, a), (c, b) and (a, c) are looked up in that order. */
  function SplitStep(p: Progress, a: int, b: int, c: int): (q: Progress)
    ensures |q.faces| == |p.faces| + 12
  {
    var ab := LookupMidpoint(p.table, b, a, p.nVertices);
    var bc := LookupMidpoint(ab.table, c, b, ab.nVertices);
    var ca := LookupMidpoint(bc.table, a, c, bc.nVertices);
    Progress(ca.table, ca.nVertices, p.faces + FaceSplit(a, b, c, ab.midpoint, bc.midpoint, ca.midpoint))
  }

  /** The first `i` old faces split, in order. */
  function SplitFaces(faces: seq<int>, i: nat, nVertices: int): (p: Progress)
    requires 3 * i <= |faces|
    ensures |p.faces| == 12 * i
    decreases i
  {
    if i == 0 then Progress([], nVertices, [])
    else SplitStep(SplitFaces(faces, i - 1, nVertices), faces[3 * (i - 1)], faces[3 * (i - 1) + 1], faces[3 * (i - 1) + 2])
  }

  lemma SplitFacesNext(faces: seq<int>, i: nat, nVertices: int)
    requires 3 * i + 3 <= |faces|
    ensures SplitFaces(faces, i + 1, nVertices) ==
      SplitStep(SplitFaces(faces, i, nVertices), faces[3 * i], faces[3 * i + 1], faces[3 * i + 2])
  {
  }

  /** Writes one face (three corners) at face slot `k`. */
  method SetFace(faces: array<int>, k: nat, x: int, y: int, z: int)
    requires 3 * k + 3 <= faces.Length
    modifies faces
    ensures faces[..3 * k + 3] == old(faces[..3 * k]) + [x, y, z]
    ensures forall j :: 3 * k + 3 <= j < faces.Length ==> faces[j] == old(faces[j])
  {
    faces[3 * k] := x;
    faces[3 * k + 1] := y;
    faces[3 * k + 2] := z;
    assert faces[..3 * k + 3] == faces[..3 * k] + [x, y, z];
  }

  /** One lookup grows the table and the vertex count by at most one. */
  lemma LookupGrowth(table: seq<Edge>, a: int, b: int, nVertices: int)
    ensures var r := LookupMidpoint(table, a, b, nVertices);
      |r.table| <= |table| + 1 && nVertices <= r.nVertices <= nVertices + 1
  {
    LookupCases(table, a, b, nVertices);
  }

  /**
   * The loop body of `subdivide` (lines 74-98) for old face (a, b, c),
   * whose four new faces go to face slots `4 * k` to `4 * k + 3`.
   */
  method SplitFace(a: int, b: int, c: int, nVertices: int, edgeWalk: nat, edges: array<Edge>, faces: array<int>, k: nat,
                   ghost p: Progress)
    returns (nVertices': int, edgeWalk': nat)
    requires edgeWalk + 3 <= edges.Length && 12 * k + 12 <= faces.Length
    requires p.table == edges[..edgeWalk] && p.nVertices == nVertices && p.faces == faces[..12 * k]
    modifies edges, faces
    ensures edgeWalk' <= edgeWalk + 3
    ensures var q := SplitStep(p, a, b, c);
      && nVertices' == q.nVertices
      && edgeWalk' == |q.table| && edges[..edgeWalk'] == q.table
      && faces[..12 * k + 12] == q.faces
    ensures forall j :: 12 * k + 12 <= j < faces.Length ==> faces[j] == old(faces[j])
  {
    var abMidpoint, bcMidpoint, caMidpoint;
    abMidpoint, nVertices', edgeWalk' := SearchMidpoint(b, a, nVertices, edgeWalk, edges);
    bcMidpoint, nVertices', edgeWalk' := SearchMidpoint(c, b, nVertices', edgeWalk', edges);
    caMidpoint, nVertices', edgeWalk' := SearchMidpoint(a, c, nVertices', edgeWalk', edges);
    var nFacesNew := 4 * k;
    SetFace(faces, nFacesNew, a, abMidpoint, caMidpoint);
    nFacesNew := nFacesNew + 1;
    SetFace(faces, nFacesNew, caMidpoint, abMidpoint, bcMidpoint);
    nFacesNew := nFacesNew + 1;
    SetFace(faces, nFacesNew, caMidpoint, bcMidpoint, c);
    nFacesNew := nFacesNew + 1;
    SetFace(faces, nFacesNew, abMidpoint, b, bcMidpoint);
  }

  /**
   * `subdivide` (lines 55-101): every face is split into four, the edge
   * table is sized `2 * nVertices + 3 * nFaces`, which becomes the new
   * edge count, and the face array is rebuilt at four times the size.
   */
  method Subdivide(nVertices: int, nEdges: int, nFaces: nat, faces: array<int>)
    returns (nVertices': int, nEdges': int, nFaces': nat, faces': array<int>)
    requires faces.Length == 3 * nFaces && nVertices >= 0
    ensures var p := SplitFaces(faces[..], nFaces, nVertices);
      nVertices' == p.nVertices && faces'[..] == p.faces
    ensures nFaces' == 4 * nFaces && faces'.Length == 3 * nFaces'
    ensures nEdges' == 2 * nVertices + 3 * nFaces
  {
    nEdges' := 2 * nVertices + 3 * nFaces;
    var edges := new Edge[nEdges'](_ => Edge(0, 0, 0));
    faces' := new int[12 * nFaces];
    nVertices' := SplitAllFaces(faces[..], nFaces, nVertices, edges, faces');
    assert faces'[..] == faces'[..12 * nFaces];
    nFaces' := 4 * nFaces;
  }

  /** The loop of `subdivide` over the old faces (lines 73-98), writing the new faces into `newFaces`. */
  method SplitAllFaces(faces: seq<int>, nFaces: nat, nVertices: int, edges: array<Edge>, newFaces: array<int>)
    returns (nVertices': int)
    requires |faces| == 3 * nFaces && edges.Length >= 3 * nFaces && newFaces.Length == 12 * nFaces
    modifies edges, newFaces
    ensures var p := SplitFaces(faces, nFaces, nVertices);
      nVertices' == p.nVertices && newFaces[..12 * nFaces] == p.faces
  {
    var edgeWalk: nat := 0;
    nVertices' := nVertices;
    ghost var p := Progress([], nVertices, []);
    for i := 0 to nFaces
      invariant edgeWalk <= 3 * i
      invariant p == SplitFaces(faces, i, nVertices)
      invariant nVertices' == p.nVertices && edgeWalk == |p.table|
      invariant edges[..edgeWalk] == p.table
      invariant newFaces[..12 * i] == p.faces
    {
      SplitFacesNext(faces, i, nVertices);
      nVertices', edgeWalk := SplitFace(faces[3 * i], faces[3 * i + 1], faces[3 * i + 2], nVertices', edgeWalk,
                                         edges, newFaces, i, p);
      p := SplitStep(p, faces[3 * i], faces[3 * i + 1], faces[3 * i + 2]);
    }
  }

  /** The first `i` faces split are a prefix of the first `j`. */
  lemma {:induction false} SplitFacesPrefix(faces: seq<int>, i: nat, j: nat, nVertices: int)
    requires i <= j && 3 * j <= |faces|
    ensures SplitFaces(faces, i, nVertices).faces == SplitFaces(faces, j, nVertices).faces[..12 * i]
    decreases j
  {
    if i < j {
      SplitFacesPrefix(faces, i, j - 1, nVertices);
      var p := SplitFaces(faces, j - 1, nVertices);
      assert SplitFaces(faces, j, nVertices).faces[..12 * (j - 1)] == p.faces;
    }
  }

  /** The midpoints of the edges (b, a), (c, b) and (a, c), looked up in that order on the table `p` leaves. */
  function EdgeMidpoints(p: Progress, a: int, b: int, c: int): (int, int, int) {
    var ab := LookupMidpoint(p.table, b, a, p.nVertices);
    var bc := LookupMidpoint(ab.table, c, b, ab.nVertices);
    var ca := LookupMidpoint(bc.table, a, c, bc.nVertices);
    (ab.midpoint, bc.midpoint, ca.midpoint)
  }

  lemma SplitStepLayout(p: Progress, a: int, b: int, c: int)
    ensures var f, o, mids := SplitStep(p, a, b, c).faces, |p.faces|, EdgeMidpoints(p, a, b, c);
      && f[o] == a && f[o + 10] == b && f[o + 8] == c
      && f[o + 1] == f[o + 4] == f[o + 9] == mids.0
      && f[o + 5] == f[o + 7] == f[o + 11] == mids.1
      && f[o + 2] == f[o + 3] == f[o + 6] == mids.2
  {
  }

  /**
   * Old face k = (a, b, c) becomes the new faces 4k .. 4k+3: corner `a` opens
   * the first, `c` closes the third, `b` is the middle of the fourth, and the
   * midpoints of the edges ab, bc and ca, looked up in that order on the
   * table the earlier faces leave, fill the slots the order
   * (a, ab, ca), (ca, ab, bc), (ca, bc, c), (ab, b, bc) requires.
   */
  lemma SplitFacesLayout(faces: seq<int>, i: nat, nVertices: int, k: nat)
    requires 3 * i <= |faces| && k < i
    ensures var f, o := SplitFaces(faces, i, nVertices).faces, 12 * k;
      var mids := EdgeMidpoints(SplitFaces(faces, k, nVertices), faces[3 * k], faces[3 * k + 1], faces[3 * k + 2]);
      && f[o] == faces[3 * k] && f[o + 10] == faces[3 * k + 1] && f[o + 8] == faces[3 * k + 2]
      && f[o + 1] == f[o + 4] == f[o + 9] == mids.0
      && f[o + 5] == f[o + 7] == f[o + 11] == mids.1
      && f[o + 2] == f[o + 3] == f[o + 6] == mids.2
  {
    SplitFacesPrefix(faces, k + 1, i, nVertices);
    SplitFacesNext(faces, k, nVertices);
    var p := SplitFaces(faces, k, nVertices);
    SplitStepLayout(p, faces[3 * k], faces[3 * k + 1], faces[3 * k + 2]);
  }

  /** Every entry of `faces` is a vertex index below `n`. */
  predicate IndicesBelow(faces: seq<int>, n: int) {
    forall x :: x in faces ==> 0 <= x < n
  }

  /**
   * Splitting faces whose corners are below `nVertices` yields faces whose
   * corners are below the new vertex count; every midpoint in the edge
   * table is a new vertex, distinct from the others, and at most one vertex
   * is added per edge lookup.
   */
  lemma {:induction false} SplitFacesIndices(faces: seq<int>, i: nat, nVertices: int)
    requires 3 * i <= |faces| && IndicesBelow(faces, nVertices)
    ensures var p := SplitFaces(faces, i, nVertices);
      && IndicesBelow(p.faces, p.nVertices)
      && MidpointsFresh(p.table, nVertices, p.nVertices)
      && nVertices <= p.nVertices <= nVertices + 3 * i
      && |p.table| <= 3 * i
  {
    if i > 0 {
      SplitFacesIndices(faces, i - 1, nVertices);
      var a, b, c := faces[3 * (i - 1)], faces[3 * (i - 1) + 1], faces[3 * (i - 1) + 2];
      assert a in faces && b in faces && c in faces;
      SplitStepIndices(SplitFaces(faces, i - 1, nVertices), a, b, c, nVertices);
    }
  }

  /** Splitting one face whose corners are old vertices keeps the indices in range and the midpoints fresh. */
  lemma SplitStepIndices(p: Progress, a: int, b: int, c: int, lo: int)
    requires lo <= p.nVertices && MidpointsFresh(p.table, lo, p.nVertices) && IndicesBelow(p.faces, p.nVertices)
    requires 0 <= a < lo && 0 <= b < lo && 0 <= c < lo
    ensures var q := SplitStep(p, a, b, c);
      && IndicesBelow(q.faces, q.nVertices)
      && MidpointsFresh(q.table, lo, q.nVertices)
      && p.nVertices <= q.nVertices <= p.nVertices + 3
      && |q.table| <= |p.table| + 3
  {
    var ab := LookupMidpoint(p.table, b, a, p.nVertices);
    LookupKeepsFresh(p.table, b, a, p.nVertices, lo);
    var bc := LookupMidpoint(ab.table, c, b, ab.nVertices);
    LookupKeepsFresh(ab.table, c, b, ab.nVertices, lo);
    var ca := LookupMidpoint(bc.table, a, c, bc.nVertices);
    LookupKeepsFresh(bc.table, a, c, bc.nVertices, lo);
    var split := FaceSplit(a, b, c, ab.midpoint, bc.midpoint, ca.midpoint);
    assert IndicesBelow(split, ca.nVertices);
    IndicesBelowConcat(p.faces, split, ca.nVertices);
  }

  lemma IndicesBelowConcat(f: seq<int>, g: seq<int>, n: int)
    requires IndicesBelow(f, n) && IndicesBelow(g, n)
    ensures IndicesBelow(f + g, n)
  {
  }

  // ---------------------------------------------------------------------
  // The sphere (depthmapRenderer.cpp:420-462)
  // ---------------------------------------------------------------------

  /** The corner indices of the icosahedron's 20 faces (lines 432-433), four faces per line. */
  const IcosahedronFaces: seq<int> :=
    [4, 8, 7, 4, 7, 9, 5, 6, 11, 5, 10, 6] +
    [0, 4, 3, 0, 3, 5, 2, 7, 1, 2, 1, 6] +
    [8, 0, 11, 8, 11, 1, 9, 10, 3, 9, 2, 10] +
    [8, 4, 0, 11, 0, 5, 4, 9, 3, 5, 3, 10] +
    [7, 8, 1, 6, 1, 11, 7, 2, 9, 6, 10, 2]

  /** The counters and the face array that `createSphere` threads through `subdivide`. */
  datatype Mesh = Mesh(nVertices: int, nEdges: int, nFaces: nat, faces: seq<int>)

  /** The starting mesh: 12 vertices, 30 edges, 20 faces (lines 435-437). */
  function Icosahedron(): (m: Mesh)
    ensures |m.faces| == 3 * m.nFaces
  {
    Mesh(12, 30, 20, IcosahedronFaces)
  }

  /** One `subdivide` call on a mesh. */
  function SubdivideMesh(m: Mesh): (r: Mesh)
    requires |m.faces| == 3 * m.nFaces
    ensures r.nFaces == 4 * m.nFaces && |r.faces| == 3 * r.nFaces
  {
    var p := SplitFaces(m.faces, m.nFaces, m.nVertices);
    Mesh(p.nVertices, 2 * m.nVertices + 3 * m.nFaces, 4 * m.nFaces, p.faces)
  }

  /** The mesh after `k` subdivisions of the icosahedron. */
  function Sphere(k: nat): (m: Mesh)
    ensures |m.faces| == 3 * m.nFaces
  {
    if k == 0 then Icosahedron() else SubdivideMesh(Sphere(k - 1))
  }

  function Pow4(k: nat): nat {
    if k == 0 then 1 else 4 * Pow4(k - 1)
  }

  /**
   * After `k` subdivisions there are 20 * 4^k faces, every face corner is a
   * vertex index below the vertex count, and there are at least 12 vertices.
   */
  lemma {:induction false} SphereShape(k: nat)
    ensures Sphere(k).nFaces == 20 * Pow4(k)
    ensures IndicesBelow(Sphere(k).faces, Sphere(k).nVertices)
    ensures Sphere(k).nVertices >= 12
  {
    if k == 0 {
      IcosahedronIndices();
    } else {
      SphereShape(k - 1);
      var m := Sphere(k - 1);
      SplitFacesIndices(m.faces, m.nFaces, m.nVertices);
    }
  }

  /** The icosahedron's faces use its 12 vertices only. */
  lemma IcosahedronIndices()
    ensures IndicesBelow(IcosahedronFaces, 12)
  {
    var f := IcosahedronFaces;
    assert forall i :: 0 <= i < |f| ==> 0 <= f[i] < 12;
  }

  /** The face array filled from the icosahedron's face list (lines 440-443). */
  method IcosahedronFaceArray() returns (faces: array<int>)
    ensures fresh(faces) && faces[..] == IcosahedronFaces
  {
    faces := new int[|IcosahedronFaces|];
    for i := 0 to faces.Length
      invariant faces[..i] == IcosahedronFaces[..i]
    {
      faces[i] := IcosahedronFaces[i];
    }
    assert faces[..] == IcosahedronFaces[..faces.Length];
  }

  /**
   * `createSphere` (lines 420-462) without the vertex coordinates: it
   * starts from the icosahedron, subdivides `subdivisions` times (not at
   * all when that is zero or negative) and returns one point per vertex.
   */
  method CreateSphere(subdivisions: int) returns (points: nat)
    ensures points == Sphere(if subdivisions < 0 then 0 else subdivisions).nVertices
    ensures subdivisions <= 0 ==> points == 12
  {
    var nVertices: int := 12;
    var nFaces: nat := 20;
    var nEdges: int := 30;
    var faces := IcosahedronFaceArray();
    var i := 0;
    while i < subdivisions
      invariant 0 <= i <= if subdivisions < 0 then 0 else subdivisions
      invariant Sphere(i) == Mesh(nVertices, nEdges, nFaces, faces[..])
      invariant faces.Length == 3 * nFaces
    {
      SphereShape(i);
      nVertices, nEdges, nFaces, faces := Subdivide(nVertices, nEdges, nFaces, faces);
      i := i + 1;
    }
    assert i == if subdivisions < 0 then 0 else subdivisions;
    SphereShape(i);
    points := nVertices;
  }
}

/** Coordinates and polylines. Everything the scripts hand to PostGIS about
    areas, distances and overlays is an abstract kernel operation declared by
    the module that uses it; here are only the exact, index-level operations
    on a point sequence (start/end point, removing or setting a point, closing
    a ring, dropping repeated points). */
module Geo {

  /** A map coordinate. Reals keep the seed coordinates of the scripts exact. */
  datatype Point = Point(x: real, y: real)

  /** A LINESTRING as its sequence of vertices. */
  type Line = seq<Point>

  /** Which endpoint of a line a pass works on (`'start'` or `'end'`). */
  datatype Vertex = Start | End {
    function Other(): (o: Vertex)
      ensures o != this
    {
      if Start? then End else Start
    }

    function Name(): string {
      if Start? then "start" else "end"
    }
  }

  /** ST_StartPoint / ST_EndPoint. */
  function Endpoint(g: Line, v: Vertex): Point
    requires |g| > 0
  {
    if v.Start? then g[0] else g[|g| - 1]
  }

  /** ST_IsClosed of a LINESTRING; the empty line is not closed. */
  predicate IsClosed(g: Line) {
    |g| > 0 && g[0] == g[|g| - 1]
  }

  /** ST_AddPoint(g, ST_StartPoint(g)): closes an area outline by repeating
      its first point at the end. */
  function CloseRing(g: Line): (r: Line)
    ensures |g| > 0 ==> |r| == |g| + 1 && IsClosed(r) && r[..|g|] == g
    ensures |g| == 0 ==> r == g
  {
    if |g| == 0 then g else g + [g[0]]
  }

  /** The first `m` points counted from the end opposite to `v`, i.e. the line
      after the `|g| - m` points nearest the `v` end have been removed. */
  function Keep(g: Line, m: nat, v: Vertex): (r: Line)
    requires m <= |g|
    ensures |r| == m
  {
    if v.Start? then g[|g| - m..] else g[..m]
  }

  lemma KeepKeep(g: Line, n: nat, m: nat, v: Vertex)
    requires m <= n <= |g|
    ensures Keep(Keep(g, n, v), m, v) == Keep(g, m, v)
  {
  }

  lemma KeepAll(g: Line, v: Vertex)
    ensures Keep(g, |g|, v) == g
  {
  }

  /** Trimming at the `v` end leaves the opposite endpoint where it was. */
  lemma KeepOtherEnd(g: Line, m: nat, v: Vertex)
    requires 0 < m <= |g|
    ensures Endpoint(Keep(g, m, v), v.Other()) == Endpoint(g, v.Other())
  {
  }

  /** ST_RemovePoint(g, idx * (1 - ST_NPoints(g))) with idx 0 for `start` and
      -1 for `end`: removes the first resp. the last point. */
  function RemoveEnd(g: Line, v: Vertex): (r: Line)
    requires |g| > 0
    ensures r == Keep(g, |g| - 1, v)
  {
    if v.Start? then g[1..] else g[..|g| - 1]
  }

  /** ST_SetPoint(g, idx, p) with idx 0 for `start` and -1 for `end`. */
  function SetEnd(g: Line, v: Vertex, p: Point): (r: Line)
    requires |g| > 0
    ensures |r| == |g| && Endpoint(r, v) == p
    ensures forall i :: 0 <= i < |g| && i != (if v.Start? then 0 else |g| - 1) ==> r[i] == g[i]
  {
    if v.Start? then g[0 := p] else g[|g| - 1 := p]
  }

  /** Drops every point equal to its predecessor. */
  function DropRepeats(s: Line): (r: Line)
    ensures |r| <= |s|
    ensures |s| > 0 ==> |r| > 0 && r[0] == s[0] && r[|r| - 1] == s[|s| - 1]
    ensures forall i :: 0 <= i < |r| - 1 ==> r[i] != r[i + 1]
    ensures forall p :: p in r <==> p in s
    decreases |s|
  {
    if |s| <= 1 then s
    else if s[0] == s[1] then DropRepeats(s[1..])
    else [s[0]] + DropRepeats(s[1..])
  }

  /** The indices from `i` on whose point differs from its predecessor, in
      ascending order. */
  function ChangesFrom(s: Line, i: nat): (r: seq<nat>)
    requires 1 <= i
    ensures forall j :: 0 <= j < |r| ==> i <= r[j] < |s|
    ensures forall j, j' :: 0 <= j < j' < |r| ==> r[j] < r[j']
    ensures forall x :: x in r <==> i <= x < |s| && s[x] != s[x - 1]
    decreases |s| - i
  {
    if i >= |s| then []
    else (if s[i] != s[i - 1] then [i] else []) + ChangesFrom(s, i + 1)
  }

  /** The points of `s` at the listed indices, in that order. */
  function Pick(s: Line, idx: seq<nat>): (r: Line)
    requires forall j :: 0 <= j < |idx| ==> idx[j] < |s|
    ensures |r| == |idx| && forall j :: 0 <= j < |idx| ==> r[j] == s[idx[j]]
    decreases |idx|
  {
    if idx == [] then [] else [s[idx[0]]] + Pick(s, idx[1..])
  }

  /** DropRepeats keeps the first point and exactly the points that differ
      from their predecessor, in their order. */
  lemma DropRepeatsKeeps(s: Line)
    requires |s| > 0
    ensures DropRepeats(s) == Pick(s, [0] + ChangesFrom(s, 1))
  {
    DropRepeatsFrom(s, 1);
    assert s[0..] == s;
  }

  lemma {:induction false} DropRepeatsFrom(s: Line, i: nat)
    requires 1 <= i <= |s|
    ensures DropRepeats(s[i - 1..]) == [s[i - 1]] + Pick(s, ChangesFrom(s, i))
    decreases |s| - i
  {
    if i < |s| {
      DropRepeatsFrom(s, i + 1);
      DropRepeatsStep(s, i);
      ChangesStep(s, i);
    } else {
      assert s[i - 1..] == [s[i - 1]];
    }
  }

  /** One step of ChangesFrom, with the points it picks. */
  lemma ChangesStep(s: Line, i: nat)
    requires 1 <= i < |s|
    ensures Pick(s, ChangesFrom(s, i)) ==
      if s[i] != s[i - 1] then [s[i]] + Pick(s, ChangesFrom(s, i + 1)) else Pick(s, ChangesFrom(s, i + 1))
  {
    var rest := ChangesFrom(s, i + 1);
    if s[i] != s[i - 1] {
      assert ChangesFrom(s, i) == [i] + rest;
      PickCons(s, i, rest);
    } else {
      assert ChangesFrom(s, i) == [] + rest == rest;
    }
  }

  /** One step of DropRepeats on a suffix of `s`. */
  lemma DropRepeatsStep(s: Line, i: nat)
    requires 1 <= i < |s|
    ensures DropRepeats(s[i - 1..]) ==
      if s[i] == s[i - 1] then DropRepeats(s[i..]) else [s[i - 1]] + DropRepeats(s[i..])
  {
    var t := s[i - 1..];
    assert t[1..] == s[i..];
    assert t[0] == s[i - 1] && t[1] == s[i];
  }

  lemma PickCons(s: Line, i: nat, idx: seq<nat>)
    requires i < |s| && forall j :: 0 <= j < |idx| ==> idx[j] < |s|
    ensures Pick(s, [i] + idx) == [s[i]] + Pick(s, idx)
  {
    assert ([i] + idx)[1..] == idx;
  }

  /** ST_RemoveRepeatedPoints on a LINESTRING: repeated points go, but a line
      is never reduced below its two endpoints. */
  function RemoveRepeatedPoints(s: Line): (r: Line)
    ensures |s| >= 2 ==> |r| >= 2
    ensures |r| <= |s|
    ensures |s| > 0 ==> |r| > 0 && Endpoint(r, Start) == Endpoint(s, Start) && Endpoint(r, End) == Endpoint(s, End)
    ensures forall p :: p in r <==> p in s
  {
    var d := DropRepeats(s);
    if |s| >= 2 && |d| < 2 then [s[0], s[|s| - 1]] else d
  }
}

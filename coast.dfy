/** The coastline stitcher and validator of geo_coast.py: coastline pieces are
    reduced to one simple line each, open pieces are bridged to their nearest
    coastline neighbours and merged, closed outermost coasts become land
    (type `0`), lakes are split off and named, and land covered by the main
    coast is removed. */
module Coast {
  import opened Geo
  import opened Text
  import opened Optional
  import opened Store

  /** EPS: the distance at which two endpoints count as connected, and the
      length below which a merged part counts as noise. */
  const EPS: real := 0.006

  /** The seed points that identify the two named lakes. */
  const ArainSeed: Point := Point(-17.7, 46.6)
  const TonturySeed: Point := Point(-17.7, 45.0)

  /** The PostGIS operations the script relies on, left abstract. */
  datatype Kernel = Kernel(
    dist: (Point, Point) -> real,       // ST_Distance of two points
    merge: seq<Line> -> seq<Line>,      // ST_Dump(ST_LineMerge(ST_Union(ARRAY[...]))) ORDER BY ST_Length DESC
    length: Line -> real,               // ST_Length
    covers: (Line, Point) -> bool,      // ST_Covers(ST_MakePolygon(ring), point)
    coversLine: (Line, Line) -> bool,   // ST_Covers(ST_MakePolygon(ring), geometry)
    melderyn: Table -> seq<Line>,       // the grown-and-shrunk outline of the coast around (-15.3 40.33)
    harn: Table -> Option<Line>,        // the grown-and-shrunk outline of the largest polygonized coast
    rivers: (Table, nat) -> seq<Line>,  // encircle: coastline material inside an isle, minus the named lakes
    lakeParts: Line -> seq<Line>        // non-empty pieces of the boundary of the shrunk-then-grown polygon
  )

  /** `merge[:-1]`: the parts without the last, i.e. shortest, one. */
  function Shorter(parts: seq<Line>): (r: seq<Line>)
    requires |parts| > 0
    ensures |r| == |parts| - 1 && forall i :: 0 <= i < |r| ==> r[i] == parts[i]
  {
    parts[..|parts| - 1]
  }

  /** What the merge loops need of the kernel: merging something yields
      something, and merging the parts again without the shortest yields fewer
      parts (the parts are already noded, so their union creates no new
      ones). */
  ghost predicate MergeLaw(k: Kernel) {
    && (forall ls :: ls != [] ==> k.merge(ls) != [])
    && (forall ls {:trigger k.merge(Shorter(k.merge(ls)))} ::
          k.merge(ls) != [] ==> |k.merge(Shorter(k.merge(ls)))| < |k.merge(ls)|)
  }

  /** The parts come ordered by decreasing length (the ORDER BY). */
  ghost predicate SortedMerge(k: Kernel) {
    forall ls, i, j :: 0 <= i < j < |k.merge(ls)| ==> k.length(k.merge(ls)[j]) <= k.length(k.merge(ls)[i])
  }

  // ---------------------------------------------------------------------
  // shortest_connect

  /** Coastline-like rows a bridge may lead to. */
  predicate Target(s: Segment) {
    Contains(s.kind, "COASTLINE") || s.kind == "0"
  }

  /** The endpoint pairs of the CROSS JOIN, in its order: each endpoint of the
      line with each endpoint of the other row, except that on the line's own
      row an endpoint is never paired with itself. */
  function Pairs(self: bool): seq<(Vertex, Vertex)>
  {
    if self then [(Start, End), (End, Start)]
    else [(Start, Start), (Start, End), (End, Start), (End, End)]
  }

  /** Exactly the pairs of distinct endpoints on the line's own row, and all
      four pairs on any other row. */
  lemma PairsExact(self: bool)
    ensures forall a: Vertex, b: Vertex :: (a, b) in Pairs(self) <==> (!self || a != b)
  {
    var r := Pairs(self);
    forall a: Vertex, b: Vertex
      ensures (a, b) in r <==> (!self || a != b)
    {
      match (a, b)
      case (Start, Start) => if !self { assert r[0] == (a, b); }
      case (Start, End) => if self { assert r[0] == (a, b); } else { assert r[1] == (a, b); }
      case (End, Start) => if self { assert r[1] == (a, b); } else { assert r[2] == (a, b); }
      case (End, End) => if !self { assert r[3] == (a, b); }
    }
  }

  /** ST_MakeLine of the two chosen endpoints. */
  function Link(lg: Line, g: Line, pr: (Vertex, Vertex)): Line
    requires |lg| > 0 && |g| > 0
  {
    [Endpoint(lg, pr.0), Endpoint(g, pr.1)]
  }

  /** ST_Length of a two-point line, the distance of its points. */
  function LinkLength(k: Kernel, l: Line): real
    requires |l| == 2
  {
    k.dist(l[0], l[1])
  }

  /** Of two endpoint pairs, the one of smaller distance, the first on a tie. */
  function Nearer(k: Kernel, lg: Line, g: Line, a: (Vertex, Vertex), b: (Vertex, Vertex)): (Vertex, Vertex)
    requires |lg| > 0 && |g| > 0
  {
    if LinkLength(k, Link(lg, g, b)) < LinkLength(k, Link(lg, g, a)) then b else a
  }

  /** The inner `ORDER BY ST_Distance ASC LIMIT 1` over Pairs(self), in its
      order. */
  function BestPair(k: Kernel, lg: Line, g: Line, self: bool): (Vertex, Vertex)
    requires |lg| > 0 && |g| > 0
  {
    if self then Nearer(k, lg, g, (Start, End), (End, Start))
    else Nearer(k, lg, g, Nearer(k, lg, g, Nearer(k, lg, g, (Start, Start), (Start, End)), (End, Start)), (End, End))
  }

  /** The pair chosen is an allowed pair of least distance. */
  lemma BestPairLeast(k: Kernel, lg: Line, g: Line, self: bool)
    requires |lg| > 0 && |g| > 0
    ensures var b := BestPair(k, lg, g, self); var ps := Pairs(self);
      && b in ps
      && (forall i :: 0 <= i < |ps| ==> LinkLength(k, Link(lg, g, b)) <= LinkLength(k, Link(lg, g, ps[i])))
  {
  }

  /** The connecting line from the line `lg` to the row geometry `g`. */
  function BestLink(k: Kernel, lg: Line, g: Line, self: bool): Line
    requires |lg| > 0 && |g| > 0
  {
    Link(lg, g, BestPair(k, lg, g, self))
  }

  /** A row a bridge can be computed for: it and the line have endpoints. */
  predicate Bridgeable(t: Table, line: nat, id: nat) {
    line in t.rows && id in t.rows && |t.rows[line].geo| > 0 && |t.rows[id].geo| > 0
  }

  function LinkTo(k: Kernel, t: Table, line: nat, id: nat): (l: Line)
    requires Bridgeable(t, line, id)
    ensures |l| == 2
  {
    BestLink(k, t.rows[line].geo, t.rows[id].geo, id == line)
  }

  /** The outer WHERE: a bridge shorter than EPS to a coastline-like row. */
  predicate Qualifies(k: Kernel, t: Table, line: nat, id: nat) {
    Bridgeable(t, line, id) && Target(t.rows[id]) && LinkLength(k, LinkTo(k, t, line, id)) < EPS
  }

  /** The length of the bridge to the row `id`. */
  function Span(k: Kernel, t: Table, line: nat, id: nat): real {
    if Bridgeable(t, line, id) then LinkLength(k, LinkTo(k, t, line, id)) else 0.0
  }

  /** The outer `ORDER BY ... ASC LIMIT 1` over the rows below `n`, read in
      id order: the lowest id among equal lengths. */
  function BestBelow(k: Kernel, t: Table, line: nat, n: nat): (r: Option<nat>)
    ensures r.Some? ==> r.value < n && Qualifies(k, t, line, r.value)
    decreases n
  {
    if n == 0 then None
    else
      var b := BestBelow(k, t, line, n - 1);
      if !Qualifies(k, t, line, n - 1) then b
      else if b.None? || Span(k, t, line, n - 1) < Span(k, t, line, b.value) then Some(n - 1)
      else b
  }

  /** `ORDER BY len ASC LIMIT 1` over the ids below `n` satisfying `q`, read
      in id order: the lowest id among equal lengths. */
  function ArgMinBelow(q: nat -> bool, len: nat -> real, n: nat): (r: Option<nat>)
    ensures r.Some? ==> r.value < n && q(r.value)
    decreases n
  {
    if n == 0 then None
    else
      var b := ArgMinBelow(q, len, n - 1);
      if !q(n - 1) then b
      else if b.None? || len(n - 1) < len(b.value) then Some(n - 1)
      else b
  }

  /** The id chosen has a least length among those satisfying `q`, every
      lower id satisfying `q` is strictly longer, and there is none exactly
      when no id below `n` satisfies `q`. */
  lemma {:induction false} ArgMinBelowLeast(q: nat -> bool, len: nat -> real, n: nat)
    ensures var r := ArgMinBelow(q, len, n);
      && (r.Some? ==> forall j: nat :: j < n && q(j) ==> len(r.value) <= len(j))
      && (r.Some? ==> forall j: nat :: j < r.value && q(j) ==> len(r.value) < len(j))
      && (r.None? ==> forall j: nat :: j < n ==> !q(j))
    decreases n
  {
    if n > 0 {
      ArgMinBelowLeast(q, len, n - 1);
    }
  }

  /** BestBelow is the argmin of the bridge lengths over the qualifying rows. */
  lemma {:induction false} BestBelowArgMin(k: Kernel, t: Table, line: nat, n: nat)
    ensures BestBelow(k, t, line, n) ==
      ArgMinBelow((j: nat) => Qualifies(k, t, line, j), (j: nat) => Span(k, t, line, j), n)
    decreases n
  {
    if n > 0 {
      BestBelowArgMin(k, t, line, n - 1);
    }
  }

  /** A bridge: the target's id, type and geometry, the line's geometry and
      the connecting line. */
  datatype Bridge = Bridge(id: nat, kind: string, geo: Line, line: Line, link: Line)

  /** shortest_connect: the globally shortest qualifying bridge from the line,
      if there is one. */
  function ShortestConnect(k: Kernel, t: Table, line: nat): (r: Option<Bridge>)
    requires Valid(t) && line in t.rows
    ensures r.Some? ==> r.value.id in t.rows
  {
    var b := BestBelow(k, t, line, t.serial);
    if b.None? then None
    else
      var s := t.rows[b.value];
      Some(Bridge(b.value, s.kind, s.geo, t.rows[line].geo, LinkTo(k, t, line, b.value)))
  }

  /** The bridge returned is the shortest qualifying one, carries its
      target's type and geometry and the line's geometry, and there is none
      exactly when no row qualifies. */
  lemma ShortestConnectBest(k: Kernel, t: Table, line: nat)
    requires Valid(t) && line in t.rows
    ensures var r := ShortestConnect(k, t, line);
      && (r.None? <==> forall j :: j in t.rows ==> !Qualifies(k, t, line, j))
      && (r.Some? ==>
            && Qualifies(k, t, line, r.value.id)
            && r.value.kind == t.rows[r.value.id].kind && r.value.geo == t.rows[r.value.id].geo
            && r.value.line == t.rows[line].geo && r.value.link == LinkTo(k, t, line, r.value.id)
            && (forall j :: j in t.rows && Qualifies(k, t, line, j) ==>
                 LinkLength(k, r.value.link) <= LinkLength(k, LinkTo(k, t, line, j)))
            && (forall j :: j in t.rows && j < r.value.id && Qualifies(k, t, line, j) ==>
                 LinkLength(k, r.value.link) < LinkLength(k, LinkTo(k, t, line, j))))
  {
    var q, len := (j: nat) => Qualifies(k, t, line, j), (j: nat) => Span(k, t, line, j);
    BestBelowArgMin(k, t, line, t.serial);
    ArgMinBelowLeast(q, len, t.serial);
    var b := BestBelow(k, t, line, t.serial);
    if b.None? {
      forall j | j in t.rows
        ensures !Qualifies(k, t, line, j)
      {
        assert j < t.serial && !q(j);
      }
    } else {
      forall j | j in t.rows && Qualifies(k, t, line, j)
        ensures Span(k, t, line, b.value) <= Span(k, t, line, j)
        ensures j < b.value ==> Span(k, t, line, b.value) < Span(k, t, line, j)
      {
        assert j < t.serial && q(j);
      }
    }
  }

  // ---------------------------------------------------------------------
  // name_lake

  /** The two UPDATEs of name_lake on one row: Arain first, then Tontury. */
  function NameRule(k: Kernel, s: Segment): (r: Segment)
  {
    var s1 := if k.covers(s.geo, ArainSeed) then s.(name := "Lake/Arain", kind := "4180") else s;
    if k.covers(s1.geo, TonturySeed) then s1.(name := "Lake/Tontury", kind := "520") else s1
  }

  /** A lake covering the Tontury seed is Tontury, whether or not it also
      covers the Arain seed; one covering only the Arain seed is Arain; any
      other keeps its name and type. The geometry never changes. */
  lemma NameRuleCases(k: Kernel, s: Segment)
    ensures var r := NameRule(k, s);
      && r.geo == s.geo && r.style == s.style
      && (k.covers(s.geo, TonturySeed) ==> r.name == "Lake/Tontury" && r.kind == "520")
      && (!k.covers(s.geo, TonturySeed) && k.covers(s.geo, ArainSeed) ==> r.name == "Lake/Arain" && r.kind == "4180")
      && (!k.covers(s.geo, TonturySeed) && !k.covers(s.geo, ArainSeed) ==> r == s)
  {
  }

  function NameLake(k: Kernel, t: Table, id: nat): (r: Table)
    requires Valid(t)
    ensures Valid(r) && r.serial == t.serial && r.rows.Keys == t.rows.Keys
    ensures id in t.rows ==> r.rows[id] == NameRule(k, t.rows[id])
    ensures forall j :: j in t.rows && j != id ==> r.rows[j] == t.rows[j]
  {
    if id in t.rows then Table(t.rows[id := NameRule(k, t.rows[id])], t.serial) else t
  }

  // ---------------------------------------------------------------------
  // make_valid_line and make_valid_lake

  /** The `while multi_line` loop: merge, and drop the shortest part while
      more than one remains. */
  function ValidLine(k: Kernel, m: seq<Line>): (r: Line)
    requires MergeLaw(k) && m != []
    ensures |k.merge(m)| == 1 ==> r == k.merge(m)[0]
    decreases |k.merge(m)|
  {
    var parts := k.merge(m);
    if |parts| == 1 then parts[0] else ValidLine(k, Shorter(parts))
  }

  /** make_valid_line: only the geometry of `id` changes. */
  function MakeValidLine(k: Kernel, t: Table, m: seq<Line>, id: nat): (r: Table)
    requires Valid(t) && MergeLaw(k) && m != []
    ensures Valid(r) && r.serial == t.serial && r.rows.Keys == t.rows.Keys
    ensures id in t.rows ==> r.rows[id] == t.rows[id].(geo := ValidLine(k, m))
    ensures forall j :: j in t.rows && j != id ==> r.rows[j] == t.rows[j]
  {
    SetGeo(t, id, ValidLine(k, m))
  }

  /** The `while multi_line` loop of make_valid_line. */
  method ValidLineLoop(k: Kernel, m0: seq<Line>) returns (g: Line)
    requires MergeLaw(k) && m0 != []
    ensures g == ValidLine(k, m0)
  {
    var merge := k.merge(m0);
    var m := m0;
    while |merge| != 1
      invariant m != [] && merge == k.merge(m) && ValidLine(k, m) == ValidLine(k, m0)
      decreases |merge|
    {
      m := Shorter(merge);
      merge := k.merge(m);
    }
    g := merge[0];
  }

  /** The `while multi_polys` loop: merge, and drop the shortest part while it
      is no longer than EPS. None when every part went, where the script
      fails on the empty geometry array. */
  function ValidLake(k: Kernel, m: seq<Line>): (r: Option<seq<Line>>)
    requires MergeLaw(k)
    ensures r.Some? ==> r.value != [] && EPS < k.length(r.value[|r.value| - 1])
    ensures m != [] && EPS < k.length(k.merge(m)[|k.merge(m)| - 1]) ==> r == Some(k.merge(m))
    decreases |k.merge(m)|
  {
    if m == [] then None
    else
      var parts := k.merge(m);
      if EPS < k.length(parts[|parts| - 1]) then Some(parts) else ValidLake(k, Shorter(parts))
  }

  /** With the parts ordered by length, every surviving part of a lake is
      longer than EPS, and every surviving part of a line is the single
      part of its last merge. */
  lemma ValidLakeLong(k: Kernel, m: seq<Line>)
    requires MergeLaw(k) && SortedMerge(k)
    ensures var r := ValidLake(k, m); r.Some? ==> forall i :: 0 <= i < |r.value| ==> EPS < k.length(r.value[i])
    decreases |k.merge(m)|
  {
    if m != [] {
      var parts := k.merge(m);
      if EPS >= k.length(parts[|parts| - 1]) {
        ValidLakeLong(k, Shorter(parts));
      }
    }
  }

  method ValidLakeLoop(k: Kernel, m0: seq<Line>) returns (parts: Option<seq<Line>>)
    requires MergeLaw(k)
    ensures parts == ValidLake(k, m0)
  {
    var m := m0;
    while true
      invariant ValidLake(k, m) == ValidLake(k, m0)
      decreases |k.merge(m)|
    {
      if m == [] {
        return None;
      }
      var merge := k.merge(m);
      if EPS < k.length(merge[|merge| - 1]) {
        return Some(merge);
      }
      m := Shorter(merge);
    }
  }

  /** The row make_valid_lake inserts for a surviving part. */
  function LakeRow(g: Line): Segment {
    Segment("nameless", "/COASTLINE/tmp-lake", g, "")
  }

  /** The UPDATE of make_valid_lake for a single survivor: name, type and
      geometry are set, the style stays. */
  function AsLake(s: Segment, g: Line): Segment {
    s.(name := "nameless", kind := "/COASTLINE/tmp-lake", geo := g)
  }

  /** The parts of several lakes inserted in order, each named at once. */
  function InsertLakes(k: Kernel, t: Table, ps: seq<Line>): (r: Table)
    requires Valid(t)
    ensures Valid(r) && r.serial == t.serial + |ps|
    decreases |ps|
  {
    if ps == [] then t
    else
      var p := InsertLakes(k, t, ps[..|ps| - 1]);
      var ins := Insert(p, LakeRow(ps[|ps| - 1]));
      NameLake(k, ins.0, ins.1)
  }

  lemma InsertLakesSnoc(k: Kernel, t: Table, ps: seq<Line>, p: Line)
    requires Valid(t)
    ensures var ins := Insert(InsertLakes(k, t, ps), LakeRow(p));
      InsertLakes(k, t, ps + [p]) == NameLake(k, ins.0, ins.1)
  {
    assert (ps + [p])[..|ps|] == ps;
  }

  /** Old rows stay, and the i-th id drawn holds the i-th part as a lake row
      after the naming rule. */
  lemma {:induction false} InsertLakesRows(k: Kernel, t: Table, ps: seq<Line>, id: nat)
    requires Valid(t)
    ensures var r := InsertLakes(k, t, ps);
      && (id in r.rows <==> id in t.rows || t.serial <= id < r.serial)
      && (id in t.rows ==> r.rows[id] == t.rows[id])
      && (t.serial <= id < r.serial ==> r.rows[id] == NameRule(k, LakeRow(ps[id - t.serial])))
    decreases |ps|
  {
    if ps != [] {
      var pre := ps[..|ps| - 1];
      InsertLakesRows(k, t, pre, id);
      if t.serial <= id < t.serial + |pre| {
        assert pre[id - t.serial] == ps[id - t.serial];
      }
    }
  }

  /** make_valid_lake on the candidate parts `m` of the row `id`: None when
      the script fails; with one surviving part the row itself becomes the
      lake, otherwise every part becomes a new lake row and the row goes. */
  function LakeResult(k: Kernel, t: Table, m: seq<Line>, id: nat): (r: Option<Table>)
    requires Valid(t) && MergeLaw(k)
    ensures r.Some? ==> Valid(r.value)
  {
    var parts := ValidLake(k, m);
    if parts.None? then None
    else if |parts.value| == 1 then
      var t1 := if id in t.rows then Table(t.rows[id := AsLake(t.rows[id], parts.value[0])], t.serial) else t;
      Some(NameLake(k, t1, id))
    else
      Some(Delete(InsertLakes(k, t, parts.value), id))
  }

  /** A single surviving part is written into the row itself, which keeps
      its style; several become new rows while the row goes. Nothing else
      changes. */
  lemma LakeResultRows(k: Kernel, t: Table, m: seq<Line>, id: nat, j: nat)
    requires Valid(t) && MergeLaw(k) && id in t.rows
    ensures var r := LakeResult(k, t, m, id); var parts := ValidLake(k, m);
      && (r.None? <==> parts.None?)
      && (r.Some? && |parts.value| == 1 ==>
            && r.value.rows.Keys == t.rows.Keys && r.value.rows[id] == NameRule(k, AsLake(t.rows[id], parts.value[0]))
            && r.value.rows[id].geo == parts.value[0] && r.value.rows[id].style == t.rows[id].style)
      && (r.Some? && |parts.value| != 1 ==>
            && id !in r.value.rows && r.value.serial == t.serial + |parts.value|
            && (t.serial <= j < r.value.serial ==> j in r.value.rows && r.value.rows[j] == NameRule(k, LakeRow(parts.value[j - t.serial]))))
      && (r.Some? && j in t.rows && j != id ==> j in r.value.rows && r.value.rows[j] == t.rows[j])
  {
    var parts := ValidLake(k, m);
    if parts.Some? && |parts.value| != 1 {
      InsertLakesRows(k, t, parts.value, j);
      InsertLakesRows(k, t, parts.value, id);
    } else if parts.Some? {
      NameRuleCases(k, AsLake(t.rows[id], parts.value[0]));
    }
  }

  /** The `for poly in merge` loop of make_valid_lake. */
  method InsertLakeRows(k: Kernel, t: Table, ps: seq<Line>) returns (r: Table)
    requires Valid(t)
    ensures r == InsertLakes(k, t, ps)
  {
    r := t;
    var i := 0;
    while i < |ps|
      invariant 0 <= i <= |ps| && Valid(r) && r == InsertLakes(k, t, ps[..i])
    {
      assert ps[..i + 1] == ps[..i] + [ps[i]];
      InsertLakesSnoc(k, t, ps[..i], ps[i]);
      var ins := Insert(r, LakeRow(ps[i]));
      r := NameLake(k, ins.0, ins.1);
      i := i + 1;
    }
    assert ps[..|ps|] == ps;
  }

  method MakeValidLake(k: Kernel, t: Table, m: seq<Line>, id: nat) returns (r: Option<Table>)
    requires Valid(t) && MergeLaw(k)
    ensures r == LakeResult(k, t, m, id)
  {
    var parts := ValidLakeLoop(k, m);
    if parts.None? {
      return None;
    }
    var merge := parts.value;
    if |merge| == 1 {
      var t1 := t;
      if id in t.rows {
        t1 := Table(t.rows[id := AsLake(t.rows[id], merge[0])], t.serial);
      }
      r := Some(NameLake(k, t1, id));
    } else {
      var t1 := InsertLakeRows(k, t, merge);
      r := Some(Delete(t1, id));
    }
  }

  /** One make_valid_line call, loop included. */
  method ValidateLine(k: Kernel, t: Table, m: seq<Line>, id: nat) returns (r: Table)
    requires Valid(t) && MergeLaw(k) && m != []
    ensures r == MakeValidLine(k, t, m, id)
  {
    var g := ValidLineLoop(k, m);
    r := SetGeo(t, id, g);
  }

  // ---------------------------------------------------------------------
  // Validate every coastline

  predicate IsCoastline(s: Segment) {
    Contains(s.kind, "COASTLINE")
  }

  /** make_valid_line on each of the rows `ids` with its own geometry `gs`,
      in order. */
  function ValidateAll(k: Kernel, t: Table, ids: seq<nat>, gs: seq<Line>): (r: Table)
    requires Valid(t) && MergeLaw(k) && |ids| == |gs|
    ensures Valid(r) && r.serial == t.serial && r.rows.Keys == t.rows.Keys
    decreases |ids|
  {
    if ids == [] then t
    else
      var n := |ids| - 1;
      MakeValidLine(k, ValidateAll(k, t, ids[..n], gs[..n]), [gs[n]], ids[n])
  }

  /** A row not listed is left alone. */
  lemma {:induction false} ValidateAllUnlisted(k: Kernel, t: Table, ids: seq<nat>, gs: seq<Line>, j: nat)
    requires Valid(t) && MergeLaw(k) && |ids| == |gs| && j in t.rows && j !in ids
    ensures ValidateAll(k, t, ids, gs).rows[j] == t.rows[j]
    decreases |ids|
  {
    if ids != [] {
      var n := |ids| - 1;
      assert j !in ids[..n];
      ValidateAllUnlisted(k, t, ids[..n], gs[..n], j);
    }
  }

  /** On distinct ids, each listed row gets the reduced form of its own
      geometry. */
  lemma {:induction false} ValidateAllListed(k: Kernel, t: Table, ids: seq<nat>, gs: seq<Line>, i: nat)
    requires Valid(t) && MergeLaw(k) && |ids| == |gs| && Increasing(ids)
    requires i < |ids| && ids[i] in t.rows
    ensures ValidateAll(k, t, ids, gs).rows[ids[i]] == t.rows[ids[i]].(geo := ValidLine(k, [gs[i]]))
    decreases |ids|
  {
    var n := |ids| - 1;
    if i == n {
      assert ids[n] !in ids[..n];
      ValidateAllUnlisted(k, t, ids[..n], gs[..n], ids[n]);
    } else {
      assert ids[..n][i] == ids[i] && gs[..n][i] == gs[i] && ids[i] != ids[n];
      ValidateAllListed(k, t, ids[..n], gs[..n], i);
    }
  }

  lemma ValidateAllSnoc(k: Kernel, t: Table, ids: seq<nat>, gs: seq<Line>, id: nat, g: Line)
    requires Valid(t) && MergeLaw(k) && |ids| == |gs|
    ensures ValidateAll(k, t, ids + [id], gs + [g]) == MakeValidLine(k, ValidateAll(k, t, ids, gs), [g], id)
  {
    assert (ids + [id])[..|ids|] == ids && (gs + [g])[..|gs|] == gs;
  }

  /** Step 1: every COASTLINE row reduced to a single line. */
  function ValidateCoast(k: Kernel, t: Table): (r: Table)
    requires Valid(t) && MergeLaw(k)
    ensures Valid(r) && r.serial == t.serial && r.rows.Keys == t.rows.Keys
  {
    var ids := Select(t, IsCoastline);
    assert forall i :: 0 <= i < |ids| ==> ids[i] in ids;
    ValidateAll(k, t, ids, Geos(t, ids))
  }

  /** Every COASTLINE row holds the reduced form of its geometry; no other
      row changes. */
  lemma ValidateCoastRows(k: Kernel, t: Table, j: nat)
    requires Valid(t) && MergeLaw(k) && j in t.rows
    ensures var r := ValidateCoast(k, t);
      r.rows[j] == if IsCoastline(t.rows[j]) then t.rows[j].(geo := ValidLine(k, [t.rows[j].geo])) else t.rows[j]
  {
    var ids := Select(t, IsCoastline);
    assert forall i :: 0 <= i < |ids| ==> ids[i] in ids;
    if IsCoastline(t.rows[j]) {
      assert j in ids;
      var i :| 0 <= i < |ids| && ids[i] == j;
      ValidateAllListed(k, t, ids, Geos(t, ids), i);
    } else {
      assert j !in ids;
      ValidateAllUnlisted(k, t, ids, Geos(t, ids), j);
    }
  }

  /** The `for line in lines` loop of step 1. */
  method ValidateRows(k: Kernel, t: Table, ids: seq<nat>, gs: seq<Line>) returns (r: Table)
    requires Valid(t) && MergeLaw(k) && |ids| == |gs|
    ensures r == ValidateAll(k, t, ids, gs)
  {
    r := t;
    var i := 0;
    while i < |ids|
      invariant 0 <= i <= |ids| && r == ValidateAll(k, t, ids[..i], gs[..i])
    {
      assert ids[..i + 1] == ids[..i] + [ids[i]] && gs[..i + 1] == gs[..i] + [gs[i]];
      ValidateAllSnoc(k, t, ids[..i], gs[..i], ids[i], gs[i]);
      r := ValidateLine(k, r, [gs[i]], ids[i]);
      i := i + 1;
    }
    assert ids[..|ids|] == ids && gs[..|gs|] == gs;
  }

  method ValidateLines(k: Kernel, t: Table) returns (r: Table)
    requires Valid(t) && MergeLaw(k)
    ensures r == ValidateCoast(k, t)
  {
    var ids := Select(t, IsCoastline);
    assert forall i :: 0 <= i < |ids| ==> ids[i] in ids;
    r := ValidateRows(k, t, ids, Geos(t, ids));
  }

  // ---------------------------------------------------------------------
  // Connect the open coastlines

  predicate IsOpenCoast(s: Segment) {
    IsCoastline(s) && !IsClosed(s.geo)
  }

  lemma DeleteCount(t: Table, id: nat)
    requires Valid(t) && id in t.rows
    ensures |Delete(t, id).rows.Keys| == |t.rows.Keys| - 1
  {
    assert Delete(t, id).rows.Keys == t.rows.Keys - {id};
  }

  /** No id occurs twice. */
  predicate NoRepeats(s: seq<nat>) {
    forall a, b :: 0 <= a < b < |s| ==> s[a] != s[b]
  }

  lemma NoRepeatsAppend(s: seq<nat>, u: seq<nat>)
    requires NoRepeats(s) && NoRepeats(u) && forall x :: x in u ==> x !in s
    ensures NoRepeats(s + u)
  {
    forall a, b | 0 <= a < b < |s + u|
      ensures (s + u)[a] != (s + u)[b]
    {
      if a < |s| <= b {
        assert (s + u)[b] == u[b - |s|] && u[b - |s|] in u;
      }
    }
  }

  /** The inner `while connect` loop for one line: merge the bridge and its
      target into the line; when the target is another row, delete it, record
      it and look again; when it is the line itself, stop. Returns the table
      and the ids deleted. */
  function Absorb(k: Kernel, t: Table, line: nat): (r: (Table, seq<nat>))
    requires Valid(t) && MergeLaw(k) && line in t.rows
    ensures Valid(r.0) && r.0.serial == t.serial
    decreases |t.rows.Keys|
  {
    var c := ShortestConnect(k, t, line);
    if c.None? then (t, [])
    else
      var b := c.value;
      var t1 := MakeValidLine(k, t, [b.geo, b.line, b.link], line);
      if b.id == line then (t1, [])
      else
        var t2 := Delete(t1, b.id);
        DeleteCount(t1, b.id);
        var rest := Absorb(k, t2, line);
        (rest.0, [b.id] + rest.1)
  }

  /** A line's loop deletes only rows other than the line, and changes no
      row but the line. */
  lemma {:induction false} AbsorbRows(k: Kernel, t: Table, line: nat)
    requires Valid(t) && MergeLaw(k) && line in t.rows
    ensures var r := Absorb(k, t, line);
      && line in r.0.rows && line !in r.1
      && (forall j :: j in r.0.rows <==> j in t.rows && j !in r.1)
      && (forall j :: j in r.1 ==> j in t.rows)
      && (forall j :: j in r.0.rows && j != line ==> r.0.rows[j] == t.rows[j])
    decreases |t.rows.Keys|
  {
    var c := ShortestConnect(k, t, line);
    if c.Some? && c.value.id != line {
      var b := c.value;
      var t1 := MakeValidLine(k, t, [b.geo, b.line, b.link], line);
      var t2 := Delete(t1, b.id);
      DeleteCount(t1, b.id);
      AbsorbRows(k, t2, line);
    }
  }

  /** A line's loop never deletes the same row twice. */
  lemma {:induction false} AbsorbNoRepeats(k: Kernel, t: Table, line: nat)
    requires Valid(t) && MergeLaw(k) && line in t.rows
    ensures NoRepeats(Absorb(k, t, line).1)
    decreases |t.rows.Keys|
  {
    var c := ShortestConnect(k, t, line);
    if c.Some? && c.value.id != line {
      var b := c.value;
      var t1 := MakeValidLine(k, t, [b.geo, b.line, b.link], line);
      var t2 := Delete(t1, b.id);
      DeleteCount(t1, b.id);
      AbsorbNoRepeats(k, t2, line);
      AbsorbRows(k, t2, line);
      NoRepeatsAppend([b.id], Absorb(k, t2, line).1);
    }
  }

  /** The outer `for line in lines` loop: lines deleted earlier are skipped. */
  function ConnectAll(k: Kernel, t: Table, lines: seq<nat>): (r: (Table, seq<nat>))
    requires Valid(t) && MergeLaw(k) && forall i :: 0 <= i < |lines| ==> lines[i] in t.rows
    ensures Valid(r.0) && r.0.serial == t.serial
    ensures forall j :: j in r.0.rows <==> j in t.rows && j !in r.1
    ensures forall j :: j in r.0.rows && j !in lines ==> r.0.rows[j] == t.rows[j]
    decreases |lines|
  {
    if lines == [] then (t, [])
    else
      var n := |lines| - 1;
      var line := lines[n];
      var p := ConnectAll(k, t, lines[..n]);
      if line in p.1 then p
      else
        var a := Absorb(k, p.0, line);
        AbsorbRows(k, p.0, line);
        assert forall j :: j !in lines ==> j !in lines[..n] && j != line;
        (a.0, p.1 + a.1)
  }

  /** No row is deleted twice over the whole pass. */
  lemma {:induction false} ConnectNoRepeats(k: Kernel, t: Table, lines: seq<nat>)
    requires Valid(t) && MergeLaw(k) && forall i :: 0 <= i < |lines| ==> lines[i] in t.rows
    ensures NoRepeats(ConnectAll(k, t, lines).1)
    decreases |lines|
  {
    if lines != [] {
      var n := |lines| - 1;
      var p := ConnectAll(k, t, lines[..n]);
      ConnectNoRepeats(k, t, lines[..n]);
      if lines[n] !in p.1 {
        AbsorbNoRepeats(k, p.0, lines[n]);
        AbsorbRows(k, p.0, lines[n]);
        NoRepeatsAppend(p.1, Absorb(k, p.0, lines[n]).1);
      }
    }
  }

  lemma ConnectAllSnoc(k: Kernel, t: Table, lines: seq<nat>, line: nat)
    requires Valid(t) && MergeLaw(k) && forall i :: 0 <= i < |lines| ==> lines[i] in t.rows
    requires line in t.rows
    ensures var p := ConnectAll(k, t, lines);
      ConnectAll(k, t, lines + [line]) ==
        if line in p.1 then p
        else (Absorb(k, p.0, line).0, p.1 + Absorb(k, p.0, line).1)
  {
    assert (lines + [line])[..|lines|] == lines;
  }

  /** Step 2 on the open coastlines in id order. */
  function ConnectResult(k: Kernel, t: Table): (r: Table)
    requires Valid(t) && MergeLaw(k)
    ensures Valid(r) && r.serial == t.serial
  {
    var lines := Select(t, IsOpenCoast);
    assert forall i :: 0 <= i < |lines| ==> lines[i] in lines;
    ConnectAll(k, t, lines).0
  }

  /** Connecting only merges open coastlines and deletes rows: closed rows
      and other rows survive unchanged or not at all. */
  lemma ConnectRows(k: Kernel, t: Table, j: nat)
    requires Valid(t) && MergeLaw(k) && j in t.rows && !IsOpenCoast(t.rows[j])
    ensures var r := ConnectResult(k, t); j in r.rows ==> r.rows[j] == t.rows[j]
  {
    var lines := Select(t, IsOpenCoast);
    assert j !in lines;
  }

  lemma SliceSnoc(s: seq<nat>, i: nat)
    requires i < |s|
    ensures s[..i + 1] == s[..i] + [s[i]]
  {
  }

  lemma AppendAssoc(a: seq<nat>, b: seq<nat>, c: seq<nat>)
    ensures a + (b + c) == (a + b) + c
  {
  }

  /** One round of the `while connect` loop: merge the bridge into the line,
      then stop if the target was the line itself, or delete the target. */
  method AbsorbOnce(k: Kernel, t: Table, line: nat, b: Bridge) returns (r: Table, stop: bool)
    requires Valid(t) && MergeLaw(k) && line in t.rows && ShortestConnect(k, t, line) == Some(b)
    ensures Valid(r) && line in r.rows
    ensures stop ==> Absorb(k, t, line) == (r, [])
    ensures !stop ==> |r.rows.Keys| < |t.rows.Keys| && b.id != line
    ensures !stop ==> Absorb(k, t, line) == (Absorb(k, r, line).0, [b.id] + Absorb(k, r, line).1)
  {
    r := ValidateLine(k, t, [b.geo, b.line, b.link], line);
    stop := b.id == line;
    if !stop {
      DeleteCount(r, b.id);
      r := Delete(r, b.id);
    }
  }

  method AbsorbLoop(k: Kernel, t: Table, line: nat) returns (r: Table, deleted: seq<nat>)
    requires Valid(t) && MergeLaw(k) && line in t.rows
    ensures (r, deleted) == Absorb(k, t, line)
  {
    r := t;
    deleted := [];
    assert deleted + Absorb(k, r, line).1 == Absorb(k, r, line).1;
    var connect := ShortestConnect(k, r, line);
    while connect.Some?
      invariant Valid(r) && line in r.rows && connect == ShortestConnect(k, r, line)
      invariant Absorb(k, t, line).0 == Absorb(k, r, line).0
      invariant Absorb(k, t, line).1 == deleted + Absorb(k, r, line).1
      decreases |r.rows.Keys|
    {
      var b := connect.value;
      var r1, stop := AbsorbOnce(k, r, line, b);
      if stop {
        r := r1;
        assert deleted + [] == deleted;
        return;
      }
      ghost var rest := Absorb(k, r1, line);
      AppendAssoc(deleted, [b.id], rest.1);
      r := r1;
      deleted := deleted + [b.id];
      connect := ShortestConnect(k, r, line);
    }
    assert Absorb(k, r, line) == (r, []);
    assert deleted + [] == deleted;
  }

  /** The `for line in lines` loop of step 2, with its `deleted` list. */
  method ConnectLoop(k: Kernel, t: Table, lines: seq<nat>) returns (r: Table, deleted: seq<nat>)
    requires Valid(t) && MergeLaw(k) && forall i :: 0 <= i < |lines| ==> lines[i] in t.rows
    ensures (r, deleted) == ConnectAll(k, t, lines)
  {
    deleted := [];
    r := t;
    var i := 0;
    while i < |lines|
      invariant 0 <= i <= |lines| && (r, deleted) == ConnectAll(k, t, lines[..i])
    {
      var line := lines[i];
      SliceSnoc(lines, i);
      ConnectAllSnoc(k, t, lines[..i], line);
      if line !in deleted {
        var r1, d1 := AbsorbLoop(k, r, line);
        r, deleted := r1, deleted + d1;
      }
      i := i + 1;
    }
    assert lines[..|lines|] == lines;
  }

  method ConnectLines(k: Kernel, t: Table) returns (r: Table)
    requires Valid(t) && MergeLaw(k)
    ensures r == ConnectResult(k, t)
  {
    var lines := Select(t, IsOpenCoast);
    assert forall i :: 0 <= i < |lines| ==> lines[i] in lines;
    var deleted;
    r, deleted := ConnectLoop(k, t, lines);
  }

  // ---------------------------------------------------------------------
  // Melderyn and Harn

  /** A land row inserted for an isle. */
  function IsleRow(name: string, g: Line): Segment {
    Segment(name, "0", g, "")
  }

  /** A temporary area river inserted by encircle, its ring closed. */
  function AreaRow(g: Line): Segment {
    Segment("temporary area river", "/STREAMS-LAKE/tmp-river", CloseRing(g), "fill: #36868d")
  }

  /** Rows inserted in order. */
  function InsertAll(t: Table, ss: seq<Segment>): (r: Table)
    requires Valid(t)
    ensures Valid(r) && r.serial == t.serial + |ss|
    decreases |ss|
  {
    if ss == [] then t else Insert(InsertAll(t, ss[..|ss| - 1]), ss[|ss| - 1]).0
  }

  lemma InsertAllSnoc(t: Table, ss: seq<Segment>, x: Segment)
    requires Valid(t)
    ensures InsertAll(t, ss + [x]) == Insert(InsertAll(t, ss), x).0
  {
    assert (ss + [x])[..|ss|] == ss;
  }

  /** Old rows stay, and the i-th id drawn holds the i-th row. */
  lemma {:induction false} InsertAllRows(t: Table, ss: seq<Segment>, id: nat)
    requires Valid(t)
    ensures var r := InsertAll(t, ss);
      && (id in r.rows <==> id in t.rows || t.serial <= id < r.serial)
      && (id in t.rows ==> r.rows[id] == t.rows[id])
      && (t.serial <= id < r.serial ==> r.rows[id] == ss[id - t.serial])
    decreases |ss|
  {
    if ss != [] {
      var pre := ss[..|ss| - 1];
      InsertAllRows(t, pre, id);
      if t.serial <= id < t.serial + |pre| {
        assert pre[id - t.serial] == ss[id - t.serial];
      }
    }
  }

  /** encircle: an area river for every piece the kernel finds in the isle. */
  function Encircle(k: Kernel, t: Table, isle: nat): (r: Table)
    requires Valid(t)
    ensures Valid(r)
  {
    var ps := k.rivers(t, isle);
    InsertAll(t, seq(|ps|, i requires 0 <= i < |ps| => AreaRow(ps[i])))
  }

  /** Every row encircle adds is a closed temporary area river. */
  lemma EncircleRows(k: Kernel, t: Table, isle: nat, id: nat)
    requires Valid(t)
    ensures var r := Encircle(k, t, isle);
      && t.serial <= r.serial
      && (id in t.rows ==> id in r.rows && r.rows[id] == t.rows[id])
      && (id in r.rows && id !in t.rows ==> t.serial <= id < r.serial)
      && (id in r.rows && id !in t.rows ==>
            && r.rows[id].kind == "/STREAMS-LAKE/tmp-river" && r.rows[id].style == "fill: #36868d"
            && (IsClosed(r.rows[id].geo) || r.rows[id].geo == []))
  {
    var ps := k.rivers(t, isle);
    InsertAllRows(t, seq(|ps|, i requires 0 <= i < |ps| => AreaRow(ps[i])), id);
  }

  method EncircleLoop(k: Kernel, t: Table, isle: nat) returns (r: Table)
    requires Valid(t)
    ensures r == Encircle(k, t, isle)
  {
    var ps := k.rivers(t, isle);
    ghost var ss := seq(|ps|, i requires 0 <= i < |ps| => AreaRow(ps[i]));
    r := t;
    var i := 0;
    while i < |ps|
      invariant 0 <= i <= |ps| && Valid(r) && r == InsertAll(t, ss[..i])
    {
      assert ss[..i + 1] == ss[..i] + [AreaRow(ps[i])];
      InsertAllSnoc(t, ss[..i], AreaRow(ps[i]));
      r := Insert(r, AreaRow(ps[i])).0;
      i := i + 1;
    }
    assert ss[..|ps|] == ss;
  }

  /** Step 3: the Melderyn outline pieces, then at most one Harn outline, each
      isle followed by its area rivers (encircle takes the first id drawn). */
  function Isles(k: Kernel, t: Table): (r: Table)
    requires Valid(t)
    ensures Valid(r) && t.serial <= r.serial
  {
    var t2 := MelderynStage(k, t);
    var h := k.harn(t2);
    if h.None? then t2
    else
      var t3 := Insert(t2, IsleRow("Coast/Harn", h.value));
      Encircle(k, t3.0, t3.1)
  }

  /** The Melderyn block: its outline pieces, then encircle on the first id
      drawn when there is any piece. */
  function MelderynStage(k: Kernel, t: Table): (r: Table)
    requires Valid(t)
    ensures Valid(r) && t.serial <= r.serial
  {
    var ms := k.melderyn(t);
    var t1 := InsertAll(t, seq(|ms|, i requires 0 <= i < |ms| => IsleRow("Coast/Melderyn", ms[i])));
    if |ms| > 0 then Encircle(k, t1, t.serial) else t1
  }

  /** The Melderyn block keeps every row, writes the outline pieces under the
      first ids it draws, and adds nothing else but area rivers. */
  lemma MelderynRows(k: Kernel, t: Table, id: nat)
    requires Valid(t)
    ensures var r := MelderynStage(k, t); var ms := k.melderyn(t);
      && (id in t.rows ==> id in r.rows && r.rows[id] == t.rows[id])
      && (t.serial <= id < t.serial + |ms| ==> id in r.rows && r.rows[id] == IsleRow("Coast/Melderyn", ms[id - t.serial]))
      && (id in r.rows && id !in t.rows ==> t.serial <= id < r.serial && IsleOrRiver(r.rows[id]))
      && (ms == [] ==> r == t)
  {
    var ms := k.melderyn(t);
    var ss := seq(|ms|, i requires 0 <= i < |ms| => IsleRow("Coast/Melderyn", ms[i]));
    var t1 := InsertAll(t, ss);
    InsertAllRows(t, ss, id);
    if |ms| > 0 {
      EncircleRows(k, t1, t.serial, id);
    } else {
      assert ss == [];
    }
  }

  /** A row the isle step adds: an isle outline as land, or an area river
      of encircle. */
  predicate IsleOrRiver(s: Segment) {
    || (s.name == "Coast/Harn" && s.kind == "0")
    || (s.name == "Coast/Melderyn" && s.kind == "0")
    || (s.kind == "/STREAMS-LAKE/tmp-river" && s.style == "fill: #36868d")
  }

  /** The isle step keeps every row. The first ids it draws hold the Melderyn
      outlines as land, and every other new row is the Harn outline as land
      or an area river of encircle. When neither isle is found nothing
      changes. */
  lemma IslesRows(k: Kernel, t: Table, id: nat)
    requires Valid(t)
    ensures var r := Isles(k, t); var ms := k.melderyn(t);
      && (id in t.rows ==> id in r.rows && r.rows[id] == t.rows[id])
      && (t.serial <= id < t.serial + |ms| ==> id in r.rows && r.rows[id] == IsleRow("Coast/Melderyn", ms[id - t.serial]))
      && (id in r.rows && id !in t.rows ==> t.serial <= id < r.serial && IsleOrRiver(r.rows[id]))
      && (ms == [] && k.harn(t).None? ==> r == t)
  {
    var t2 := MelderynStage(k, t);
    MelderynRows(k, t, id);
    var h := k.harn(t2);
    if h.Some? {
      var t3 := Insert(t2, IsleRow("Coast/Harn", h.value));
      EncircleRows(k, t3.0, t3.1, id);
    }
  }

  method AddIsles(k: Kernel, t: Table) returns (r: Table)
    requires Valid(t)
    ensures r == Isles(k, t)
  {
    var ms := k.melderyn(t);
    r := InsertAll(t, seq(|ms|, i requires 0 <= i < |ms| => IsleRow("Coast/Melderyn", ms[i])));
    if |ms| > 0 {
      r := EncircleLoop(k, r, t.serial);
    }
    var h := k.harn(r);
    if h.Some? {
      var ins := Insert(r, IsleRow("Coast/Harn", h.value));
      r := EncircleLoop(k, ins.0, ins.1);
    }
  }

  // ---------------------------------------------------------------------
  // Promotion, lakes and cleanup

  /** A closed row that counts as coast when it covers another. */
  predicate CoastCover(s: Segment) {
    IsClosed(s.geo) && (s.kind == "0" || Contains(s.kind, "COAST"))
  }

  /** No other closed coast row covers the row `id`. */
  predicate Outermost(k: Kernel, t: Table, id: nat)
    requires id in t.rows
  {
    !exists o :: o in t.rows && o != id && CoastCover(t.rows[o]) && k.coversLine(t.rows[o].geo, t.rows[id].geo)
  }

  predicate Promotable(k: Kernel, t: Table, id: nat)
    requires id in t.rows
  {
    IsCoastline(t.rows[id]) && IsClosed(t.rows[id].geo) && Outermost(k, t, id)
  }

  /** Step 4, one UPDATE judged on the table before it: the closed coastlines
      nothing else covers become land; nothing else changes. */
  function Promote(k: Kernel, t: Table): (r: Table)
    requires Valid(t)
    ensures Valid(r) && r.serial == t.serial && r.rows.Keys == t.rows.Keys
    ensures forall j :: j in t.rows && IsCoastline(t.rows[j]) && IsClosed(t.rows[j].geo) ==>
      r.rows[j] == (if Outermost(k, t, j) then t.rows[j].(kind := "0") else t.rows[j])
    ensures forall j :: j in t.rows && !(IsCoastline(t.rows[j]) && IsClosed(t.rows[j].geo)) ==> r.rows[j] == t.rows[j]
  {
    Table(map j | j in t.rows :: if Promotable(k, t, j) then t.rows[j].(kind := "0") else t.rows[j], t.serial)
  }

  /** A promoted row leaves the COASTLINE rows, and a closed coastline inside
      another closed coast is never promoted. */
  lemma PromoteCovered(k: Kernel, t: Table, j: nat, o: nat)
    requires Valid(t) && j in t.rows && o in t.rows && o != j
    requires IsCoastline(t.rows[j]) && CoastCover(t.rows[o]) && k.coversLine(t.rows[o].geo, t.rows[j].geo)
    ensures Promote(k, t).rows[j] == t.rows[j]
  {
    assert !Outermost(k, t, j);
  }

  predicate IsClosedCoast(s: Segment) {
    IsCoastline(s) && IsClosed(s.geo)
  }

  /** The lake query: every non-empty piece of each closed coastline, with its
      row id, rows in id order. */
  function LakePolys(k: Kernel, t: Table, ids: seq<nat>): (r: seq<(nat, Line)>)
    requires forall id :: id in ids ==> id in t.rows
    ensures forall i :: 0 <= i < |r| ==> r[i].0 in ids && r[i].1 in k.lakeParts(t.rows[r[i].0].geo)
    ensures forall id :: id in ids && k.lakeParts(t.rows[id].geo) != [] ==> exists i :: 0 <= i < |r| && r[i].0 == id
    decreases |ids|
  {
    if ids == [] then []
    else
      var n := |ids| - 1;
      var id := ids[n];
      var ps := k.lakeParts(t.rows[id].geo);
      var pre := LakePolys(k, t, ids[..n]);
      assert forall j :: j in ids ==> j in ids[..n] || j == id;
      var r := pre + seq(|ps|, i requires 0 <= i < |ps| => (id, ps[i]));
      assert forall i :: 0 <= i < |pre| ==> r[i] == pre[i];
      assert ps != [] ==> r[|pre|] == (id, ps[0]);
      r
  }

  /** Step 5: make_valid_lake on all pieces, for the first row that has
      any; None when it fails. */
  function LakeStage(k: Kernel, t: Table): (r: Option<Table>)
    requires Valid(t) && MergeLaw(k)
    ensures r.Some? ==> Valid(r.value)
  {
    var ids := Select(t, IsClosedCoast);
    var polys := LakePolys(k, t, ids);
    if polys == [] then Some(t)
    else LakeResult(k, t, seq(|polys|, i requires 0 <= i < |polys| => polys[i].1), polys[0].0)
  }

  /** With no pieces nothing happens; otherwise the row rewritten or removed
      is a closed coastline of the table. */
  lemma LakeStageRow(k: Kernel, t: Table)
    requires Valid(t) && MergeLaw(k)
    ensures var polys := LakePolys(k, t, Select(t, IsClosedCoast));
      && (polys == [] <==> forall id :: id in t.rows && IsClosedCoast(t.rows[id]) ==> k.lakeParts(t.rows[id].geo) == [])
      && (polys != [] ==> polys[0].0 in t.rows && IsClosedCoast(t.rows[polys[0].0]))
  {
    var ids := Select(t, IsClosedCoast);
    var polys := LakePolys(k, t, ids);
    if polys != [] {
      assert polys[0].0 in ids;
    } else {
      forall id | id in t.rows && IsClosedCoast(t.rows[id])
        ensures k.lakeParts(t.rows[id].geo) == []
      {
        assert id in ids;
      }
    }
  }

  /** A land row other than `main` that a `main` polygon covers. A NULL name
      (the empty string here) makes `tl.name <> 'main'` NULL, so such a row
      is not deleted. */
  predicate InsideMain(k: Kernel, t: Table, id: nat)
    requires id in t.rows
  {
    var s := t.rows[id];
    s.kind == "0" && s.name != "" && s.name != "main" &&
    exists m :: m in t.rows && t.rows[m].name == "main" && k.coversLine(t.rows[m].geo, s.geo)
  }

  /** Step 6: one DELETE judged on the table before it. The main rows and all
      non-land rows survive, and no surviving row changes. */
  function Cleanup(k: Kernel, t: Table): (r: Table)
    requires Valid(t)
    ensures Valid(r) && r.serial == t.serial
    ensures forall j :: j in r.rows <==> j in t.rows && !InsideMain(k, t, j)
    ensures forall j :: j in t.rows && (t.rows[j].name in {"main", ""} || t.rows[j].kind != "0") ==> j in r.rows
    ensures forall j :: j in r.rows ==> r.rows[j] == t.rows[j]
  {
    Table(map j | j in t.rows && !InsideMain(k, t, j) :: t.rows[j], t.serial)
  }

  // ---------------------------------------------------------------------
  // execute

  /** The whole script; None when make_valid_lake fails. */
  function CoastResult(k: Kernel, t: Table): (r: Option<Table>)
    requires Valid(t) && MergeLaw(k)
    ensures r.Some? ==> Valid(r.value)
  {
    var t1 := ValidateCoast(k, t);
    var t2 := ConnectResult(k, t1);
    var t3 := Isles(k, t2);
    var t4 := Promote(k, t3);
    var t5 := LakeStage(k, t4);
    if t5.None? then None else Some(Cleanup(k, t5.value))
  }

  method Execute(k: Kernel, t: Table) returns (r: Option<Table>)
    requires Valid(t) && MergeLaw(k)
    ensures r == CoastResult(k, t)
  {
    var t1 := ValidateLines(k, t);
    var t2 := ConnectLines(k, t1);
    var t3 := AddIsles(k, t2);
    var t4 := Promote(k, t3);
    var t5 := LakeStage(k, t4);
    if t5.None? {
      return None;
    }
    r := Some(Cleanup(k, t5.value));
  }
}

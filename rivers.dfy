/** The drainage level assembler of geo_rivers.py: area rivers are thinned to
    candidate streams, then river mouths are grown level by level from the
    coast (level 0) and from the mouths of the previous level, with lakes
    cutting mouths and spawning the next level. */
module Rivers {
  import opened Geo
  import opened Text
  import opened Optional
  import opened Store

  /** ST_Union of the listed geometries: a terminal boundary. */
  type Shape = seq<Line>

  /** The PostGIS/SFCGAL operations the script relies on, left abstract.
      `near` and `nearLake` are the `ST_Distance(...) < EPS0` tests with
      EPS0 = 0.005; `retains` is the ST_Covers test against the area river
      polygon shrunk by EPS1/50 with EPS1 = 0.004. */
  datatype Kernel = Kernel(
    near: (Shape, Point) -> bool,         // ST_Distance(shape, p) < EPS0
    intersects: (Shape, Line) -> bool,    // ST_Intersects(shape, line)
    closest: (Shape, Point) -> Point,     // ST_ClosestPoint(shape, p)
    nearLake: (Line, Point) -> bool,      // ST_Distance(ST_MakePolygon(ring), p) < EPS0
    cutByLake: (Line, Line) -> seq<Line>, // ST_Dump(ST_Difference(line, ST_MakePolygon(ring)))
    length: Line -> real,                 // ST_Length
    pieces: Line -> seq<Line>,            // ST_Dump(ST_Union(medial axis)) of a buffered closed ring
    retains: (Line, Line) -> bool,        // the shrunk polygon of the ring covers the piece
    merge: seq<Line> -> seq<Line>         // ST_Dump(ST_LineMerge(ST_Union(pieces))), pieces non-empty
  )

  // ---------------------------------------------------------------------
  // handle_river: one pass over one boundary and one orientation

  /** Rows `name = 'candidate' AND type NOT LIKE 'River/%'`. A NULL type (the
      empty string here) makes the NOT LIKE NULL, so such a row is not one. */
  predicate IsCandidate(s: Segment) {
    s.name == "candidate" && s.kind != "" && !StartsWith(s.kind, "River/")
  }

  /** A candidate whose `v` endpoint is within EPS0 of the boundary. A
      LINESTRING with an endpoint has at least two points. */
  predicate Reaches(k: Kernel, b: Shape, v: Vertex, s: Segment) {
    IsCandidate(s) && |s.geo| >= 2 && k.near(b, Endpoint(s.geo, v))
  }

  /** The SELECT of candidates at the start of a pass. */
  function Candidates(k: Kernel, t: Table, v: Vertex, b: Shape): (r: seq<nat>)
    requires Valid(t)
    ensures Increasing(r)
    ensures forall id {:trigger id in r} :: id in r <==> id in t.rows && Reaches(k, b, v, t.rows[id])
  {
    Select(t, s => Reaches(k, b, v, s))
  }

  function MouthType(level: nat, v: Vertex): string {
    "River/" + NatToString(level) + "/Mouth:" + v.Name()
  }

  /** The `while True` loop: the point at the `v` end is removed, one at a
      time, while the line intersects the boundary and has more than two
      points. The result is the line with a run of points cut off the `v`
      end only, it has at least two points, and it is the first line in that
      sequence of removals at which the loop's exit test holds. */
  function Trim(k: Kernel, b: Shape, g: Line, v: Vertex): (r: Line)
    requires |g| >= 2
    ensures 2 <= |r| <= |g| && r == Keep(g, |r|, v)
    ensures |r| == 2 || !k.intersects(b, r)
    ensures forall m :: |r| < m <= |g| ==> m != 2 && k.intersects(b, Keep(g, m, v))
    decreases |g|
  {
    if !k.intersects(b, g) || |g| == 2 then
      KeepAll(g, v);
      g
    else
      var g' := RemoveEnd(g, v);
      var r := Trim(k, b, g', v);
      KeepKeep(g, |g'|, |r|, v);
      assert forall m :: |r| < m < |g| ==> Keep(g', m, v) == Keep(g, m, v) by {
        forall m | |r| < m < |g| ensures Keep(g', m, v) == Keep(g, m, v) {
          KeepKeep(g, |g'|, m, v);
        }
      }
      KeepAll(g, v);
      r
  }

  /** The row that replaces a processed candidate: named `-`, typed
      `River/{level}/Mouth:{v}`, its `v` endpoint snapped to the boundary
      point closest to the trimmed line's endpoint, its other endpoint that
      of the original line. */
  function Mouth(k: Kernel, b: Shape, g: Line, v: Vertex, level: nat): (s: Segment)
    requires |g| >= 2
    ensures s.name == "-" && s.kind == MouthType(level, v) && !IsCandidate(s)
    ensures |s.geo| >= 2
    ensures Endpoint(s.geo, v) == k.closest(b, Endpoint(Trim(k, b, g, v), v))
    ensures Endpoint(s.geo, v.Other()) == Endpoint(g, v.Other())
  {
    var tr := Trim(k, b, g, v);
    KeepOtherEnd(g, |tr|, v);
    var geo := SetEnd(RemoveRepeatedPoints(tr), v, k.closest(b, Endpoint(tr, v)));
    assert Endpoint(geo, v.Other()) == Endpoint(tr, v.Other());
    Segment("-", MouthType(level, v), geo, "")
  }

  /** The mouth row of a candidate line, as a function of the line. */
  function MouthOf(k: Kernel, b: Shape, v: Vertex, level: nat): (mk: Line -> Segment)
  {
    g => if |g| >= 2 then Mouth(k, b, g, v, level) else Segment("-", MouthType(level, v), g, "")
  }

  lemma MouthOfNotCandidate(k: Kernel, b: Shape, v: Vertex, level: nat)
    ensures forall g :: !IsCandidate(MouthOf(k, b, v, level)(g))
  {
  }

  /** One candidate: INSERT its replacement row `mk(geo)`, then DELETE it. */
  function Step(mk: Line -> Segment, t: Table, id: nat): (r: Table)
    requires Valid(t)
    ensures Valid(r)
  {
    if id in t.rows && |t.rows[id].geo| >= 2 then
      Table(t.rows[t.serial := mk(t.rows[id].geo)] - {id}, t.serial + 1)
    else t
  }

  /** The candidates `ids`, processed in order. */
  function Pass(mk: Line -> Segment, t: Table, ids: seq<nat>): (r: Table)
    requires Valid(t)
    ensures Valid(r) && t.serial <= r.serial <= t.serial + |ids|
    decreases |ids|
  {
    if ids == [] then t else Step(mk, Pass(mk, t, ids[..|ids| - 1]), ids[|ids| - 1])
  }

  /** What handle_river leaves in the table. */
  function RiverResult(k: Kernel, t: Table, v: Vertex, level: nat, term: Option<Shape>): (r: Table)
    requires Valid(t)
    ensures Valid(r)
  {
    if term.None? then t
    else Pass(MouthOf(k, term.value, v, level), t, Candidates(k, t, v, term.value))
  }

  /** What handle_river returns. */
  function Yield(k: Kernel, t: Table, v: Vertex, term: Option<Shape>): nat
    requires Valid(t)
  {
    if term.None? then 0 else |Candidates(k, t, v, term.value)|
  }

  /** The candidates a pass may process: present, with endpoints, distinct. */
  ghost predicate Processable(t: Table, ids: seq<nat>) {
    Increasing(ids) && forall i :: 0 <= i < |ids| ==> ids[i] in t.rows && |t.rows[ids[i]].geo| >= 2
  }

  lemma ProcessablePrefix(t: Table, ids: seq<nat>)
    requires Processable(t, ids) && ids != []
    ensures Processable(t, ids[..|ids| - 1]) && ids[|ids| - 1] !in ids[..|ids| - 1]
    ensures ids == ids[..|ids| - 1] + [ids[|ids| - 1]]
  {
    var n := |ids| - 1;
    assert forall i :: 0 <= i < n ==> ids[..n][i] == ids[i];
  }

  /** A row the pass does not process stays as it was. */
  lemma {:induction false} PassKeeps(mk: Line -> Segment, t: Table, ids: seq<nat>, id: nat)
    requires Valid(t) && id in t.rows && id !in ids
    ensures var r := Pass(mk, t, ids); id in r.rows && r.rows[id] == t.rows[id]
    decreases |ids|
  {
    if ids != [] {
      var pre := ids[..|ids| - 1];
      assert forall x :: x in pre ==> x in ids;
      PassKeeps(mk, t, pre, id);
    }
  }

  /** Every processed candidate draws exactly one new id. */
  lemma {:induction false} PassSerial(mk: Line -> Segment, t: Table, ids: seq<nat>)
    requires Valid(t) && Processable(t, ids)
    ensures Pass(mk, t, ids).serial == t.serial + |ids|
    decreases |ids|
  {
    if ids != [] {
      var pre := ids[..|ids| - 1];
      ProcessablePrefix(t, ids);
      PassSerial(mk, t, pre);
      PassKeeps(mk, t, pre, ids[|ids| - 1]);
    }
  }

  /** Every processed candidate is deleted. */
  lemma {:induction false} PassRemoves(mk: Line -> Segment, t: Table, ids: seq<nat>, j: nat)
    requires Valid(t) && Processable(t, ids) && j < |ids|
    ensures ids[j] !in Pass(mk, t, ids).rows
    decreases |ids|
  {
    var n := |ids| - 1;
    var pre := ids[..n];
    ProcessablePrefix(t, ids);
    if j == n {
      PassKeeps(mk, t, pre, ids[n]);
    } else {
      assert pre[j] == ids[j];
      PassRemoves(mk, t, pre, j);
    }
  }

  /** The i-th processed candidate is replaced by its row `mk(geo)`, whose id
      is the i-th id drawn during the pass. */
  lemma {:induction false} PassNew(mk: Line -> Segment, t: Table, ids: seq<nat>, i: nat)
    requires Valid(t) && Processable(t, ids) && i < |ids|
    ensures var r := Pass(mk, t, ids);
      t.serial + i in r.rows && r.rows[t.serial + i] == mk(t.rows[ids[i]].geo)
    decreases |ids|
  {
    var n := |ids| - 1;
    var pre := ids[..n];
    ProcessablePrefix(t, ids);
    PassSerial(mk, t, pre);
    PassKeeps(mk, t, pre, ids[n]);
    if i < n {
      PassNew(mk, t, pre, i);
      assert pre[i] == ids[i];
    }
  }

  /** A pass adds no row other than the replacement rows. */
  lemma {:induction false} PassDomain(mk: Line -> Segment, t: Table, ids: seq<nat>, id: nat)
    requires Valid(t)
    ensures var r := Pass(mk, t, ids); id in r.rows ==> id in t.rows || t.serial <= id < r.serial
    decreases |ids|
  {
    if ids != [] {
      PassDomain(mk, t, ids[..|ids| - 1], id);
    }
  }

  /** The candidate rows of a table. */
  function CandidateSet(t: Table): set<nat> {
    set id | id in t.rows && IsCandidate(t.rows[id])
  }

  /** The candidates left after a pass are those before it minus the
      processed ones (the replacement rows are never candidates), so the
      count drops by exactly the number processed. */
  lemma {:induction false} PassCandidates(mk: Line -> Segment, t: Table, ids: seq<nat>)
    requires Valid(t) && Processable(t, ids)
    requires forall i :: 0 <= i < |ids| ==> IsCandidate(t.rows[ids[i]])
    requires forall g :: !IsCandidate(mk(g))
    ensures var r := Pass(mk, t, ids);
      && (forall id :: id in CandidateSet(r) <==> id in CandidateSet(t) && id !in ids)
      && |CandidateSet(r)| + |ids| == |CandidateSet(t)|
    decreases |ids|
  {
    if ids != [] {
      var n := |ids| - 1;
      var pre := ids[..n];
      var last := ids[n];
      ProcessablePrefix(t, ids);
      assert forall i :: 0 <= i < n ==> pre[i] == ids[i];
      PassCandidates(mk, t, pre);
      PassKeeps(mk, t, pre, last);
      var r' := Pass(mk, t, pre);
      var r := Pass(mk, t, ids);
      assert r.rows == r'.rows[r'.serial := mk(r'.rows[last].geo)] - {last};
      assert CandidateSet(r) == CandidateSet(r') - {last};
    }
  }

  /** handle_river: with no boundary it returns 0 and changes nothing;
      otherwise it replaces every candidate reaching the boundary by its
      mouth row and returns how many there were. */
  lemma RiverResultCandidates(k: Kernel, t: Table, v: Vertex, level: nat, term: Option<Shape>)
    requires Valid(t)
    ensures var r := RiverResult(k, t, v, level, term);
      && (term.None? ==> r == t && Yield(k, t, v, term) == 0)
      && (forall id :: id in CandidateSet(r) <==>
            id in CandidateSet(t) && (term.None? || id !in Candidates(k, t, v, term.value)))
      && |CandidateSet(r)| + Yield(k, t, v, term) == |CandidateSet(t)|
  {
    if term.Some? {
      var ids := Candidates(k, t, v, term.value);
      assert forall i :: 0 <= i < |ids| ==> ids[i] in ids;
      MouthOfNotCandidate(k, term.value, v, level);
      PassCandidates(MouthOf(k, term.value, v, level), t, ids);
    }
  }

  /** A candidate seen after a pass was there before it and was not
      processed by it, provided the replacement rows are never candidates. */
  lemma {:induction false} SeenAfterPass(mk: Line -> Segment, t: Table, ids: seq<nat>, id: nat)
    requires Valid(t) && Processable(t, ids) && forall g :: !IsCandidate(mk(g))
    requires var r := Pass(mk, t, ids); id in r.rows && IsCandidate(r.rows[id])
    ensures id !in ids && id in t.rows && Pass(mk, t, ids).rows[id] == t.rows[id]
  {
    PassDomain(mk, t, ids, id);
    if id !in t.rows {
      PassSerial(mk, t, ids);
      PassNew(mk, t, ids, id - t.serial);
      assert false;
    }
    if id in ids {
      var j :| 0 <= j < |ids| && ids[j] == id;
      PassRemoves(mk, t, ids, j);
      assert false;
    }
    PassKeeps(mk, t, ids, id);
  }

  /** The `end` pass that follows the `start` pass on the same boundary never
      sees a row the `start` pass consumed, and it sees the rows it does see
      as they were before the `start` pass. */
  lemma StartThenEnd(k: Kernel, t: Table, level: nat, b: Shape)
    requires Valid(t)
    ensures var t1 := RiverResult(k, t, Start, level, Some(b));
      forall id :: id in Candidates(k, t1, End, b) ==>
        id !in Candidates(k, t, Start, b) && id in t.rows && t1.rows[id] == t.rows[id]
  {
    var ids := Candidates(k, t, Start, b);
    var mk := MouthOf(k, b, Start, level);
    assert forall j :: 0 <= j < |ids| ==> ids[j] in ids;
    MouthOfNotCandidate(k, b, Start, level);
    var t1 := Pass(mk, t, ids);
    forall id | id in Candidates(k, t1, End, b)
      ensures id !in ids && id in t.rows && t1.rows[id] == t.rows[id]
    {
      SeenAfterPass(mk, t, ids, id);
    }
  }

  /** The `while True` loop of handle_river on one candidate line. */
  method TrimEnd(k: Kernel, b: Shape, g0: Line, v: Vertex) returns (g: Line)
    requires |g0| >= 2
    ensures g == Trim(k, b, g0, v)
  {
    g := g0;
    while k.intersects(b, g) && |g| != 2
      invariant 2 <= |g| && Trim(k, b, g, v) == Trim(k, b, g0, v)
      decreases |g|
    {
      g := RemoveEnd(g, v);
    }
  }

  /** The row handle_river inserts for one candidate line. */
  method MouthRow(k: Kernel, b: Shape, g0: Line, v: Vertex, level: nat) returns (row: Segment)
    requires |g0| >= 2
    ensures row == Mouth(k, b, g0, v, level)
  {
    var g := TrimEnd(k, b, g0, v);
    row := Segment("-", MouthType(level, v), SetEnd(RemoveRepeatedPoints(g), v, k.closest(b, Endpoint(g, v))), "");
  }

  /** One candidate of handle_river: INSERT the mouth row built from its
      line, then DELETE it. */
  method HandleCandidate(k: Kernel, b: Shape, v: Vertex, level: nat, t: Table, id: nat) returns (r: Table)
    requires Valid(t)
    requires id in t.rows ==> |t.rows[id].geo| >= 2
    ensures r == Step(MouthOf(k, b, v, level), t, id)
  {
    r := t;
    if id in t.rows {
      var row := MouthRow(k, b, t.rows[id].geo, v, level);
      assert row == MouthOf(k, b, v, level)(t.rows[id].geo);
      var ins := Insert(t, row);
      r := Delete(ins.0, id);
    }
  }

  method HandleRiver(k: Kernel, t: Table, v: Vertex, level: nat, term: Option<Shape>)
    returns (r: Table, n: nat)
    requires Valid(t)
    ensures Valid(r)
    ensures r == RiverResult(k, t, v, level, term) && n == Yield(k, t, v, term)
  {
    if term.None? {
      return t, 0;
    }
    var b := term.value;
    ghost var mk := MouthOf(k, b, v, level);
    var ids := Candidates(k, t, v, b);
    r := t;
    var i := 0;
    while i < |ids|
      invariant 0 <= i <= |ids| && Valid(r)
      invariant r == Pass(mk, t, ids[..i])
    {
      var id := ids[i];
      assert id in ids;
      assert id !in ids[..i] by {
        forall j | 0 <= j < i ensures ids[..i][j] != id { assert ids[..i][j] == ids[j]; }
      }
      PassKeeps(mk, t, ids[..i], id);
      PassSnoc(mk, t, ids, i);
      r := HandleCandidate(k, b, v, level, r, id);
      i := i + 1;
    }
    assert ids[..|ids|] == ids;
    n := |ids|;
  }

  /** Processing one more candidate extends a pass by one step. */
  lemma PassSnoc(mk: Line -> Segment, t: Table, ids: seq<nat>, i: nat)
    requires Valid(t) && i < |ids|
    ensures Pass(mk, t, ids[..i + 1]) == Step(mk, Pass(mk, t, ids[..i]), ids[i])
  {
    assert ids[..i + 1][..i] == ids[..i];
  }

  // ---------------------------------------------------------------------
  // handle_lakes: mouths ending in a lake are cut at it, and the lake
  // becomes the boundary of the next level

  /** An entry of the `lakes` list: the id and the outline read once at the
      start of execute. */
  datatype Lake = Lake(id: nat, ring: Line)

  /** A level-`level` mouth oriented at the other vertex whose `v` endpoint
      is within EPS0 of the lake polygon. The LIKE pattern has no wildcard,
      so it is an exact match on the type. */
  predicate Inflow(k: Kernel, ring: Line, v: Vertex, level: nat, s: Segment) {
    s.kind == MouthType(level, v.Other()) && |s.geo| > 0 && k.nearLake(ring, Endpoint(s.geo, v))
  }

  /** The SELECT of mouths flowing into one lake. */
  function Inflows(k: Kernel, t: Table, v: Vertex, level: nat, ring: Line): (r: seq<nat>)
    requires Valid(t)
    ensures Increasing(r)
    ensures forall id {:trigger id in r} :: id in r <==> id in t.rows && Inflow(k, ring, v, level, t.rows[id])
  {
    Select(t, s => Inflow(k, ring, v, level, s))
  }

  /** `ORDER BY ST_Length(geo) DESC LIMIT 1` over the dumped pieces: the
      index of a longest piece, the first one among equally long pieces. */
  function Longest(k: Kernel, ps: seq<Line>): (i: nat)
    requires |ps| > 0
    ensures i < |ps|
    ensures forall j :: 0 <= j < |ps| ==> k.length(ps[j]) <= k.length(ps[i])
    ensures forall j :: 0 <= j < i ==> k.length(ps[j]) < k.length(ps[i])
    decreases |ps|
  {
    if |ps| == 1 then 0
    else
      var i := Longest(k, ps[..|ps| - 1]);
      if k.length(ps[|ps| - 1]) > k.length(ps[i]) then |ps| - 1 else i
  }

  /** The geometry a mouth keeps after the lake is cut out of it: the longest
      remaining piece, or the line itself when nothing remains. */
  function CutGeo(k: Kernel, ring: Line, g: Line): (r: Line)
    ensures k.cutByLake(g, ring) == [] ==> r == g
    ensures k.cutByLake(g, ring) != [] ==>
      r in k.cutByLake(g, ring) && forall p :: p in k.cutByLake(g, ring) ==> k.length(p) <= k.length(r)
  {
    var ps := k.cutByLake(g, ring);
    if ps == [] then g else ps[Longest(k, ps)]
  }

  /** One mouth: the UPDATE to the longest piece when there is one. */
  function Cut(k: Kernel, t: Table, ring: Line, id: nat): (r: Table)
    requires Valid(t)
    ensures Valid(r)
  {
    if id in t.rows && k.cutByLake(t.rows[id].geo, ring) != [] then
      SetGeo(t, id, CutGeo(k, ring, t.rows[id].geo))
    else t
  }

  /** The mouths `ids`, cut in order. */
  function CutAll(k: Kernel, t: Table, ring: Line, ids: seq<nat>): (r: Table)
    requires Valid(t)
    ensures Valid(r)
    decreases |ids|
  {
    if ids == [] then t else Cut(k, CutAll(k, t, ring, ids[..|ids| - 1]), ring, ids[|ids| - 1])
  }

  /** Cutting changes the geometry of exactly the listed rows, each to what
      the lake leaves of it, and nothing else. */
  lemma {:induction false} CutAllRows(k: Kernel, t: Table, ring: Line, ids: seq<nat>, id: nat)
    requires Valid(t) && Increasing(ids)
    ensures var r := CutAll(k, t, ring, ids);
      && r.serial == t.serial
      && (id in r.rows <==> id in t.rows)
      && (id in t.rows ==>
            r.rows[id] == if id in ids then t.rows[id].(geo := CutGeo(k, ring, t.rows[id].geo)) else t.rows[id])
    decreases |ids|
  {
    if ids != [] {
      var n := |ids| - 1;
      var pre := ids[..n];
      assert forall i :: 0 <= i < n ==> pre[i] == ids[i];
      assert Increasing(pre);
      CutAllRows(k, t, ring, pre, id);
      if id == ids[n] {
        assert id !in pre;
      } else {
        assert id in ids <==> id in pre by {
          assert ids == pre + [ids[n]];
        }
      }
    }
  }

  /** Cutting touches geometry only, so the candidate set is unchanged. */
  lemma CutAllCandidates(k: Kernel, t: Table, ring: Line, ids: seq<nat>)
    requires Valid(t) && Increasing(ids)
    ensures CandidateSet(CutAll(k, t, ring, ids)) == CandidateSet(t)
  {
    var r := CutAll(k, t, ring, ids);
    forall id ensures id in CandidateSet(r) <==> id in CandidateSet(t) {
      CutAllRows(k, t, ring, ids, id);
    }
  }

  /** One lake: cut the mouths flowing into it, and when there was at least
      one, run handle_river at the next level on the lake outline, first for
      `v`, then for the other vertex. Also returns how many mouths matched. */
  function LakeStep(k: Kernel, t: Table, v: Vertex, level: nat, lake: Lake): (r: (Table, nat))
    requires Valid(t)
    ensures Valid(r.0)
  {
    var ids := Inflows(k, t, v, level, lake.ring);
    var t1 := CutAll(k, t, lake.ring, ids);
    if |ids| > 0 then
      var t2 := RiverResult(k, t1, v, level + 1, Some([lake.ring]));
      (RiverResult(k, t2, v.Other(), level + 1, Some([lake.ring])), |ids|)
    else (t1, 0)
  }

  /** `n` copies of `x`. */
  function Repeat<T>(x: T, n: nat): (r: seq<T>)
    ensures |r| == n && forall i :: 0 <= i < n ==> r[i] == x
  {
    seq(n, _ => x)
  }

  /** handle_lakes' treatment of one lake, as a function of the table. */
  function LakeStepOf(k: Kernel, v: Vertex, level: nat): (step: (Table, Lake) -> (Table, nat))
  {
    (t, lake) => if Valid(t) then LakeStep(k, t, v, level, lake) else (t, 0)
  }

  /** A lake step that keeps the table valid. */
  ghost predicate StepValid(step: (Table, Lake) -> (Table, nat)) {
    forall t, lake :: Valid(t) ==> Valid(step(t, lake).0)
  }

  lemma LakeStepOfValid(k: Kernel, v: Vertex, level: nat)
    ensures StepValid(LakeStepOf(k, v, level))
  {
  }

  /** The `for lake in lakes` loop for a given treatment `step` of one lake:
      the table it leaves and `rm_lakes`, which receives the lake once per
      matched mouth. */
  function LakesFold(step: (Table, Lake) -> (Table, nat), t: Table, lakes: seq<Lake>): (r: (Table, seq<Lake>))
    requires Valid(t) && StepValid(step)
    ensures Valid(r.0)
    decreases |lakes|
  {
    if lakes == [] then (t, [])
    else
      var p := LakesFold(step, t, lakes[..|lakes| - 1]);
      var lake := lakes[|lakes| - 1];
      var s := step(p.0, lake);
      (s.0, p.1 + Repeat(lake, s.1))
  }

  /** The `for lake in lakes` loop of handle_lakes. */
  function LakesPass(k: Kernel, t: Table, v: Vertex, level: nat, lakes: seq<Lake>): (r: (Table, seq<Lake>))
    requires Valid(t)
    ensures Valid(r.0)
  {
    LakeStepOfValid(k, v, level);
    LakesFold(LakeStepOf(k, v, level), t, lakes)
  }

  predicate Distinct<T(==)>(s: seq<T>) {
    forall i, j :: 0 <= i < j < |s| ==> s[i] != s[j]
  }

  /** `s.remove(x)`: the first occurrence of `x` goes. */
  function RemoveFirst(s: seq<Lake>, x: Lake): (r: seq<Lake>)
    ensures multiset(r) == multiset(s) - multiset{x}
    decreases |s|
  {
    if s == [] then []
    else if s[0] == x then
      assert s == [s[0]] + s[1..];
      s[1..]
    else
      assert s == [s[0]] + s[1..];
      [s[0]] + RemoveFirst(s[1..], x)
  }

  /** Removing one entry from a list without repetitions removes exactly
      that entry. */
  lemma RemoveFirstDistinct(s: seq<Lake>, x: Lake)
    requires Distinct(s)
    ensures var r := RemoveFirst(s, x);
      Distinct(r) && forall y :: y in r <==> y in s && y != x
  {
    var r := RemoveFirst(s, x);
    forall y ensures y in r <==> multiset(r)[y] > 0 { }
    forall y ensures y in s <==> multiset(s)[y] > 0 { }
    DistinctCount(s);
    forall y ensures multiset(r)[y] <= 1 { }
    CountDistinct(r);
  }

  lemma {:induction false} DistinctCount(s: seq<Lake>)
    requires Distinct(s)
    ensures forall y :: multiset(s)[y] <= 1
    decreases |s|
  {
    if s != [] {
      var t := s[1..];
      assert s == [s[0]] + t;
      assert Distinct(t) by {
        forall a, b | 0 <= a < b < |t| ensures t[a] != t[b] { assert t[a] == s[a + 1] && t[b] == s[b + 1]; }
      }
      DistinctCount(t);
      assert s[0] !in t by {
        forall a | 0 <= a < |t| ensures t[a] != s[0] { assert t[a] == s[a + 1]; }
      }
      assert multiset(t)[s[0]] == 0;
    }
  }

  lemma {:induction false} CountDistinct(s: seq<Lake>)
    requires forall y :: multiset(s)[y] <= 1
    ensures Distinct(s)
    decreases |s|
  {
    if s != [] {
      var t := s[1..];
      assert s == [s[0]] + t;
      assert multiset(s) == multiset{s[0]} + multiset(t);
      assert forall y :: multiset(t)[y] <= multiset(s)[y];
      CountDistinct(t);
      assert multiset(t)[s[0]] == 0;
      assert s[0] !in t;
      forall a, b | 0 <= a < b < |s| ensures s[a] != s[b] {
        if a == 0 {
          assert s[b] == t[b - 1];
        } else {
          assert s[a] == t[a - 1] && s[b] == t[b - 1];
        }
      }
    }
  }

  /** The removal loop: `if lake in lakes: lakes.remove(lake)` for each entry
      of `rm_lakes` in order. */
  function DropAll(s: seq<Lake>, rm: seq<Lake>): (r: seq<Lake>)
    decreases |rm|
  {
    if rm == [] then s
    else
      var l := DropAll(s, rm[..|rm| - 1]);
      if rm[|rm| - 1] in l then RemoveFirst(l, rm[|rm| - 1]) else l
  }

  /** In a list without repetitions, exactly the listed entries are removed
      and the list stays without repetitions. */
  lemma {:induction false} DropAllMembers(s: seq<Lake>, rm: seq<Lake>)
    requires Distinct(s)
    ensures var r := DropAll(s, rm); Distinct(r) && forall y :: y in r <==> y in s && y !in rm
    decreases |rm|
  {
    if rm != [] {
      var pre := rm[..|rm| - 1];
      DropAllMembers(s, pre);
      var l := DropAll(s, pre);
      if rm[|rm| - 1] in l {
        RemoveFirstDistinct(l, rm[|rm| - 1]);
      }
      assert rm == pre + [rm[|rm| - 1]];
    }
  }

  /** What handle_lakes leaves: the table, and the lakes still to consider. */
  function LakesResult(k: Kernel, t: Table, v: Vertex, level: nat, lakes: seq<Lake>): (r: (Table, seq<Lake>))
    requires Valid(t)
    ensures Valid(r.0)
  {
    var p := LakesPass(k, t, v, level, lakes);
    (p.0, DropAll(lakes, p.1))
  }

  /** Only lakes of the list are put on `rm_lakes`. */
  lemma {:induction false} LakesFoldRemoved(step: (Table, Lake) -> (Table, nat), t: Table, lakes: seq<Lake>)
    requires Valid(t) && StepValid(step)
    ensures forall x :: x in LakesFold(step, t, lakes).1 ==> x in lakes
    decreases |lakes|
  {
    if lakes != [] {
      var pre := lakes[..|lakes| - 1];
      LakesFoldRemoved(step, t, pre);
      assert forall x :: x in pre ==> x in lakes;
    }
  }

  /** The i-th lake goes on `rm_lakes` exactly when its step matched some
      mouth in the table the loop had reached by then. */
  lemma {:induction false} LakesFoldMatched(step: (Table, Lake) -> (Table, nat), t: Table, lakes: seq<Lake>, i: nat)
    requires Valid(t) && StepValid(step) && Distinct(lakes) && i < |lakes|
    ensures lakes[i] in LakesFold(step, t, lakes).1 <==> step(LakesFold(step, t, lakes[..i]).0, lakes[i]).1 > 0
    decreases |lakes|
  {
    var n := |lakes| - 1;
    var pre := lakes[..n];
    var p := LakesFold(step, t, pre);
    var m := step(p.0, lakes[n]).1;
    var rep := Repeat(lakes[n], m);
    LakesFoldRemoved(step, t, pre);
    assert Distinct(pre) by {
      assert forall a :: 0 <= a < n ==> pre[a] == lakes[a];
    }
    if i == n {
      assert lakes[n] !in pre by {
        forall a | 0 <= a < n ensures pre[a] != lakes[n] { assert pre[a] == lakes[a]; }
      }
      assert lakes[..i] == pre;
      assert lakes[n] in rep <==> m > 0 by {
        if m > 0 { assert rep[0] == lakes[n]; }
      }
    } else {
      LakesFoldMatched(step, t, pre, i);
      assert pre[i] == lakes[i] && pre[..i] == lakes[..i];
      assert lakes[i] != lakes[n];
      assert lakes[i] !in rep;
    }
  }

  /** In handle_lakes, the i-th lake goes on `rm_lakes` exactly when some
      level-`level` mouth flowed into it in the table reached by then. */
  lemma LakesPassMatched(k: Kernel, t: Table, v: Vertex, level: nat, lakes: seq<Lake>, i: nat)
    requires Valid(t) && Distinct(lakes) && i < |lakes|
    ensures lakes[i] in LakesPass(k, t, v, level, lakes).1 <==>
      |Inflows(k, LakesPass(k, t, v, level, lakes[..i]).0, v, level, lakes[i].ring)| > 0
  {
    LakeStepOfValid(k, v, level);
    LakesFoldMatched(LakeStepOf(k, v, level), t, lakes, i);
  }

  /** A lake leaves the list exactly when it was put on `rm_lakes`; the lakes
      that matched nothing stay, in a list that still has no repetitions. */
  lemma LakesResultLakes(k: Kernel, t: Table, v: Vertex, level: nat, lakes: seq<Lake>)
    requires Valid(t) && Distinct(lakes)
    ensures var r := LakesResult(k, t, v, level, lakes);
      && Distinct(r.1)
      && forall x :: x in r.1 <==> x in lakes && x !in LakesPass(k, t, v, level, lakes).1
  {
    DropAllMembers(lakes, LakesPass(k, t, v, level, lakes).1);
  }

  /** A lake step removes candidates only (it cuts mouths and runs two
      handle_river passes, whose mouth rows are no candidates). */
  lemma LakeStepCandidates(k: Kernel, t: Table, v: Vertex, level: nat, lake: Lake)
    requires Valid(t)
    ensures CandidateSet(LakeStep(k, t, v, level, lake).0) <= CandidateSet(t)
  {
    var ids := Inflows(k, t, v, level, lake.ring);
    var t1 := CutAll(k, t, lake.ring, ids);
    CutAllCandidates(k, t, lake.ring, ids);
    if |ids| > 0 {
      var b := Some([lake.ring]);
      RiverResultCandidates(k, t1, v, level + 1, b);
      RiverResultCandidates(k, RiverResult(k, t1, v, level + 1, b), v.Other(), level + 1, b);
    }
  }

  /** A lake step that never adds a candidate. */
  ghost predicate StepShrinks(step: (Table, Lake) -> (Table, nat)) {
    forall t, lake :: Valid(t) ==> CandidateSet(step(t, lake).0) <= CandidateSet(t)
  }

  lemma {:induction false} LakesFoldCandidates(step: (Table, Lake) -> (Table, nat), t: Table, lakes: seq<Lake>)
    requires Valid(t) && StepValid(step) && StepShrinks(step)
    ensures CandidateSet(LakesFold(step, t, lakes).0) <= CandidateSet(t)
    decreases |lakes|
  {
    if lakes != [] {
      LakesFoldCandidates(step, t, lakes[..|lakes| - 1]);
    }
  }

  /** handle_lakes removes candidates only. */
  lemma LakesPassCandidates(k: Kernel, t: Table, v: Vertex, level: nat, lakes: seq<Lake>)
    requires Valid(t)
    ensures CandidateSet(LakesPass(k, t, v, level, lakes).0) <= CandidateSet(t)
  {
    var step := LakeStepOf(k, v, level);
    LakeStepOfValid(k, v, level);
    forall t', lake | Valid(t') ensures CandidateSet(step(t', lake).0) <= CandidateSet(t') {
      LakeStepCandidates(k, t', v, level, lake);
    }
    LakesFoldCandidates(step, t, lakes);
  }

  /** The inner loop of handle_lakes over the matched mouths of one lake. */
  method CutInflows(k: Kernel, t: Table, lake: Lake, ids: seq<nat>, rm0: seq<Lake>)
    returns (r: Table, rm: seq<Lake>)
    requires Valid(t)
    ensures r == CutAll(k, t, lake.ring, ids) && rm == rm0 + Repeat(lake, |ids|)
  {
    r, rm := t, rm0;
    var j := 0;
    while j < |ids|
      invariant 0 <= j <= |ids| && Valid(r)
      invariant r == CutAll(k, t, lake.ring, ids[..j]) && rm == rm0 + Repeat(lake, j)
    {
      var id := ids[j];
      if id in r.rows {
        var pieces := k.cutByLake(r.rows[id].geo, lake.ring);
        if |pieces| > 0 {
          r := SetGeo(r, id, pieces[Longest(k, pieces)]);
        }
      }
      rm := rm + [lake];
      assert ids[..j + 1][..j] == ids[..j];
      j := j + 1;
    }
    assert ids[..|ids|] == ids;
  }

  /** The body of `for lake in lakes`. */
  method LakeVisit(k: Kernel, t: Table, v: Vertex, level: nat, lake: Lake, rm0: seq<Lake>)
    returns (r: Table, rm: seq<Lake>)
    requires Valid(t)
    ensures var s := LakeStep(k, t, v, level, lake); r == s.0 && rm == rm0 + Repeat(lake, s.1)
  {
    var ids := Inflows(k, t, v, level, lake.ring);
    r, rm := CutInflows(k, t, lake, ids, rm0);
    if |ids| > 0 {
      var n;
      r, n := HandleRiver(k, r, v, level + 1, Some([lake.ring]));
      r, n := HandleRiver(k, r, v.Other(), level + 1, Some([lake.ring]));
    }
  }

  /** The removal loop at the end of handle_lakes. */
  method DropLakes(lakes: seq<Lake>, rm: seq<Lake>) returns (left: seq<Lake>)
    ensures left == DropAll(lakes, rm)
  {
    left := lakes;
    var i := 0;
    while i < |rm|
      invariant 0 <= i <= |rm| && left == DropAll(lakes, rm[..i])
    {
      if rm[i] in left {
        left := RemoveFirst(left, rm[i]);
      }
      assert rm[..i + 1][..i] == rm[..i];
      i := i + 1;
    }
    assert rm[..|rm|] == rm;
  }

  /** Visiting one more lake extends the loop by one step. */
  lemma LakesFoldSnoc(step: (Table, Lake) -> (Table, nat), t: Table, lakes: seq<Lake>, i: nat)
    requires Valid(t) && StepValid(step) && i < |lakes|
    ensures var p := LakesFold(step, t, lakes[..i]);
      var s := step(p.0, lakes[i]);
      LakesFold(step, t, lakes[..i + 1]) == (s.0, p.1 + Repeat(lakes[i], s.1))
  {
    assert lakes[..i + 1][..i] == lakes[..i];
  }

  method HandleLakes(k: Kernel, t: Table, v: Vertex, level: nat, lakes: seq<Lake>)
    returns (r: Table, left: seq<Lake>)
    requires Valid(t)
    ensures Valid(r)
    ensures (r, left) == LakesResult(k, t, v, level, lakes)
  {
    ghost var step := LakeStepOf(k, v, level);
    LakeStepOfValid(k, v, level);
    r := t;
    var rm: seq<Lake> := [];
    var i := 0;
    while i < |lakes|
      invariant 0 <= i <= |lakes| && Valid(r)
      invariant (r, rm) == LakesFold(step, t, lakes[..i])
    {
      LakesFoldSnoc(step, t, lakes, i);
      r, rm := LakeVisit(k, r, v, level, lakes[i], rm);
      i := i + 1;
    }
    assert lakes[..|lakes|] == lakes;
    left := DropLakes(lakes, rm);
  }

  // ---------------------------------------------------------------------
  // execute: area rivers thinned to candidate streams

  /** `type LIKE '%STREAMS%' AND style LIKE '%fill: #36868d%'` */
  predicate IsAreaRiver(s: Segment) {
    Contains(s.kind, "STREAMS") && Contains(s.style, "fill: #36868d")
  }

  /** The dumped medial pieces the shrunk area polygon covers, in the order
      the kernel lists them (the WHERE of make_axis). */
  function Retained(k: Kernel, ring: Line, ps: seq<Line>): (r: seq<Line>)
    ensures |r| <= |ps|
    ensures forall p :: p in r <==> p in ps && k.retains(ring, p)
    decreases |ps|
  {
    if ps == [] then []
    else
      var pre := ps[..|ps| - 1];
      var last := ps[|ps| - 1];
      assert ps == pre + [last];
      Retained(k, ring, pre) + (if k.retains(ring, last) then [last] else [])
  }

  /** The covered dumped pieces of the medial axis of an area river whose
      outline is `g`, closed by repeating its start point. */
  function Covered(k: Kernel, g: Line): (r: seq<Line>)
    ensures forall p :: p in r <==> p in k.pieces(CloseRing(g)) && k.retains(CloseRing(g), p)
  {
    Retained(k, CloseRing(g), k.pieces(CloseRing(g)))
  }

  /** make_axis for one area river: the covered pieces are line-merged and
      dumped. When no piece is covered the aggregate ST_Union is NULL and the
      query returns no row. */
  function Axes(k: Kernel, g: Line): (r: seq<Line>)
    ensures Covered(k, g) == [] ==> r == []
    ensures forall p :: p in r ==> Covered(k, g) != [] && p in k.merge(Covered(k, g))
  {
    var kept := Covered(k, g);
    if kept == [] then [] else k.merge(kept)
  }

  /** The pieces of all the given area river outlines, in order. */
  function AreaPieces(k: Kernel, gs: seq<Line>): (r: seq<Line>)
    decreases |gs|
  {
    if gs == [] then [] else AreaPieces(k, gs[..|gs| - 1]) + Axes(k, gs[|gs| - 1])
  }

  lemma AreaPiecesSnoc(k: Kernel, gs: seq<Line>, i: nat)
    requires i < |gs|
    ensures AreaPieces(k, gs[..i + 1]) == AreaPieces(k, gs[..i]) + Axes(k, gs[i])
  {
    assert gs[..i + 1][..i] == gs[..i];
  }

  lemma {:induction false} AreaPiecesFrom(k: Kernel, gs: seq<Line>, p: Line)
    requires p in AreaPieces(k, gs)
    ensures exists i :: 0 <= i < |gs| && p in Axes(k, gs[i])
    decreases |gs|
  {
    var n := |gs| - 1;
    var pre := gs[..n];
    if p !in Axes(k, gs[n]) {
      AreaPiecesFrom(k, pre, p);
      var i :| 0 <= i < n && p in Axes(k, pre[i]);
      assert pre[i] == gs[i];
    }
  }

  /** The row make_axis inserts for a piece. */
  function StreamRow(p: Line): Segment {
    Segment("candidate", "STREAMS", p, "")
  }

  /** The pieces inserted in order, each drawing a new id. */
  function InsertStreams(t: Table, ps: seq<Line>): (r: Table)
    requires Valid(t)
    ensures Valid(r) && r.serial == t.serial + |ps|
    decreases |ps|
  {
    if ps == [] then t
    else Insert(InsertStreams(t, ps[..|ps| - 1]), StreamRow(ps[|ps| - 1])).0
  }

  /** Old rows stay, and the i-th id drawn holds the i-th piece as a
      candidate STREAMS row. */
  lemma {:induction false} InsertStreamsRows(t: Table, ps: seq<Line>, id: nat)
    requires Valid(t)
    ensures var r := InsertStreams(t, ps);
      && (id in r.rows <==> id in t.rows || t.serial <= id < r.serial)
      && (id in t.rows ==> r.rows[id] == t.rows[id])
      && (t.serial <= id < r.serial ==> r.rows[id] == StreamRow(ps[id - t.serial]))
    decreases |ps|
  {
    if ps != [] {
      var pre := ps[..|ps| - 1];
      InsertStreamsRows(t, pre, id);
      if t.serial <= id < t.serial + |pre| {
        assert pre[id - t.serial] == ps[id - t.serial];
      }
    }
  }

  lemma {:induction false} InsertStreamsAppend(t: Table, a: seq<Line>, b: seq<Line>)
    requires Valid(t)
    ensures InsertStreams(t, a + b) == InsertStreams(InsertStreams(t, a), b)
    decreases |b|
  {
    if b == [] {
      assert a + b == a;
    } else {
      var pre := b[..|b| - 1];
      assert (a + b)[..|a + b| - 1] == a + pre;
      assert (a + b)[|a + b| - 1] == b[|b| - 1];
      InsertStreamsAppend(t, a, pre);
    }
  }

  /** The thinning step of execute: the outlines of the area rivers are
      read once, and the pieces of each are inserted in turn. */
  function ThinResult(k: Kernel, t: Table): (r: Table)
    requires Valid(t)
    ensures Valid(r)
  {
    InsertStreams(t, AreaPieces(k, AreaOutlines(t)))
  }

  /** The outlines of the area rivers, in id order. */
  function AreaOutlines(t: Table): seq<Line>
    requires Valid(t)
  {
    var ids := Select(t, IsAreaRiver);
    assert forall i :: 0 <= i < |ids| ==> ids[i] in ids;
    Geos(t, ids)
  }

  /** Thinning keeps every row and adds only candidate STREAMS rows, each
      holding a part of the line merge of the medial pieces of one area river
      that the river's shrunk polygon covers; an area river none of whose
      pieces is covered adds nothing. */
  lemma ThinRows(k: Kernel, t: Table, id: nat)
    requires Valid(t)
    ensures var r := ThinResult(k, t);
      && (id in t.rows ==> id in r.rows && r.rows[id] == t.rows[id])
      && (id in r.rows && id !in t.rows ==>
            && r.rows[id].name == "candidate" && r.rows[id].kind == "STREAMS" && IsCandidate(r.rows[id])
            && exists a :: a in t.rows && IsAreaRiver(t.rows[a]) &&
                 Covered(k, t.rows[a].geo) != [] && r.rows[id].geo in k.merge(Covered(k, t.rows[a].geo)))
  {
    var ids := Select(t, IsAreaRiver);
    assert forall i :: 0 <= i < |ids| ==> ids[i] in ids;
    var gs := Geos(t, ids);
    var ps := AreaPieces(k, gs);
    var r := InsertStreams(t, ps);
    InsertStreamsRows(t, ps, id);
    if id in r.rows && id !in t.rows {
      assert "River/"[0] != "STREAMS"[0];
      var p := ps[id - t.serial];
      AreaPiecesFrom(k, gs, p);
      var i :| 0 <= i < |gs| && p in Axes(k, gs[i]);
      assert ids[i] in ids;
    }
  }

  /** make_axis: the merged covered pieces of one area river inserted in
      order, one row each. */
  method MakeAxis(k: Kernel, t: Table, g: Line) returns (r: Table)
    requires Valid(t)
    ensures r == InsertStreams(t, Axes(k, g))
  {
    var merge := Axes(k, g);
    r := t;
    var j := 0;
    while j < |merge|
      invariant 0 <= j <= |merge| && Valid(r) && r == InsertStreams(t, merge[..j])
    {
      var ins := Insert(r, StreamRow(merge[j]));
      r := ins.0;
      assert merge[..j + 1][..j] == merge[..j];
      j := j + 1;
    }
    assert merge[..|merge|] == merge;
  }

  /** The `for row in rows` loop of execute over the area rivers. */
  method ThinAreaRivers(k: Kernel, t: Table) returns (r: Table)
    requires Valid(t)
    ensures r == ThinResult(k, t)
  {
    var rows := AreaOutlines(t);
    r := t;
    var i := 0;
    while i < |rows|
      invariant 0 <= i <= |rows| && Valid(r)
      invariant r == InsertStreams(t, AreaPieces(k, rows[..i]))
    {
      r := MakeAxis(k, r, rows[i]);
      AreaPiecesSnoc(k, rows, i);
      InsertStreamsAppend(t, AreaPieces(k, rows[..i]), Axes(k, rows[i]));
      i := i + 1;
    }
    assert rows[..|rows|] == rows;
  }

  // ---------------------------------------------------------------------
  // execute: candidates, boundaries, lakes and the level loop

  /** `type LIKE '%STREAMS%' AND NOT ST_IsClosed(wkb_geometry)` */
  predicate IsOpenStream(s: Segment) {
    Contains(s.kind, "STREAMS") && !IsClosed(s.geo)
  }

  /** `UPDATE ... SET name = 'candidate' WHERE <open stream>` */
  function MarkCandidates(t: Table): (r: Table)
    requires Valid(t)
    ensures Valid(r) && r.serial == t.serial && r.rows.Keys == t.rows.Keys
    ensures forall id :: id in t.rows ==>
      r.rows[id] == if IsOpenStream(t.rows[id]) then t.rows[id].(name := "candidate") else t.rows[id]
  {
    Table(map id | id in t.rows :: if IsOpenStream(t.rows[id]) then t.rows[id].(name := "candidate") else t.rows[id], t.serial)
  }

  /** After marking, the candidates are the earlier ones plus every open
      stream not typed `River/%`. */
  lemma MarkedCandidates(t: Table)
    requires Valid(t)
    ensures CandidateSet(MarkCandidates(t)) ==
      CandidateSet(t) + set id | id in t.rows && IsOpenStream(t.rows[id]) && !StartsWith(t.rows[id].kind, "River/")
  {
  }

  /** The rows whose union is the boundary of `level`: type `0` (the shores)
      at level 0, and `River/{level-1}/%` (the mouths of the level before)
      above it. */
  predicate Terminal(level: nat, s: Segment) {
    if level == 0 then s.kind == "0" else StartsWith(s.kind, "River/" + NatToString(level - 1) + "/")
  }

  /** Every mouth row of a level belongs to the boundary of the next one. */
  lemma MouthTerminal(level: nat, v: Vertex, s: Segment)
    requires s.kind == MouthType(level, v)
    ensures Terminal(level + 1, s)
  {
    var p := "River/" + NatToString(level) + "/";
    assert s.kind == p + ("Mouth:" + v.Name());
  }

  /** `SELECT ST_Union(wkb_geometry) ... WHERE <terminal>`: NULL (no
      boundary) when no row qualifies, otherwise the geometries of exactly
      the qualifying rows. */
  function LevelBoundary(t: Table, level: nat): (r: Option<Shape>)
    requires Valid(t)
    ensures r.None? <==> forall id :: id in t.rows ==> !Terminal(level, t.rows[id])
    ensures r.Some? ==> forall id :: id in t.rows && Terminal(level, t.rows[id]) ==> t.rows[id].geo in r.value
    ensures r.Some? ==> forall i :: 0 <= i < |r.value| ==>
      exists id :: id in t.rows && Terminal(level, t.rows[id]) && t.rows[id].geo == r.value[i]
  {
    var ids := Select(t, s => Terminal(level, s));
    if ids == [] then
      assert forall id :: id in t.rows ==> id !in ids;
      None
    else
      assert ids[0] in ids;
      var g := Geos(t, ids);
      forall i | 0 <= i < |g|
        ensures exists id :: id in t.rows && Terminal(level, t.rows[id]) && t.rows[id].geo == g[i]
      {
        assert ids[i] in ids;
      }
      forall id | id in t.rows && Terminal(level, t.rows[id]) ensures t.rows[id].geo in g {
        assert id in ids;
        var i :| 0 <= i < |ids| && ids[i] == id;
        assert g[i] == t.rows[id].geo;
      }
      Some(g)
  }

  /** `type = 'COASTLINE/tmp-lake' OR type LIKE 'Lake%'` */
  predicate IsLake(s: Segment) {
    s.kind == "COASTLINE/tmp-lake" || StartsWith(s.kind, "Lake")
  }

  /** The `lakes` list: every lake row once, with its outline, by id. */
  function LakeList(t: Table): (r: seq<Lake>)
    requires Valid(t)
    ensures Distinct(r)
    ensures forall i :: 0 <= i < |r| ==>
      r[i].id in t.rows && IsLake(t.rows[r[i].id]) && r[i].ring == t.rows[r[i].id].geo
    ensures forall id :: id in t.rows && IsLake(t.rows[id]) ==> Lake(id, t.rows[id].geo) in r
  {
    var ids := Select(t, IsLake);
    assert forall i :: 0 <= i < |ids| ==> ids[i] in ids;
    var r := seq(|ids|, i requires 0 <= i < |ids| => Lake(ids[i], t.rows[ids[i]].geo));
    forall id | id in t.rows && IsLake(t.rows[id]) ensures Lake(id, t.rows[id].geo) in r {
      assert id in ids;
      var i :| 0 <= i < |ids| && ids[i] == id;
      assert r[i] == Lake(id, t.rows[id].geo);
    }
    r
  }

  /** The two handle_river passes of a level on one boundary, `start` then
      `end`, and the sum of their yields. */
  function LevelRivers(k: Kernel, t: Table, level: nat, b: Option<Shape>): (r: (Table, nat))
    requires Valid(t)
    ensures Valid(r.0)
  {
    var t1 := RiverResult(k, t, Start, level, b);
    (RiverResult(k, t1, End, level, b), Yield(k, t, Start, b) + Yield(k, t1, End, b))
  }

  /** The two handle_lakes calls of a level, `start` then `end`, sharing the
      lakes list. */
  function LevelLakes(k: Kernel, t: Table, level: nat, lakes: seq<Lake>): (r: (Table, seq<Lake>))
    requires Valid(t)
    ensures Valid(r.0)
  {
    var l1 := LakesResult(k, t, Start, level, lakes);
    LakesResult(k, l1.0, End, level, l1.1)
  }

  /** One level: the boundary, the two handle_river passes and the two
      handle_lakes calls; the count is that of the handle_river passes only. */
  function Round(k: Kernel, t: Table, lakes: seq<Lake>, level: nat): (r: (Table, seq<Lake>, nat))
    requires Valid(t)
    ensures Valid(r.0)
  {
    var rv := LevelRivers(k, t, level, LevelBoundary(t, level));
    var lk := LevelLakes(k, rv.0, level, lakes);
    (lk.0, lk.1, rv.1)
  }

  lemma SubsetCard(a: set<nat>, b: set<nat>)
    requires a <= b
    ensures |a| <= |b|
  {
    assert b == a + (b - a);
  }

  /** Every row a level counts leaves the candidate set, and its lake steps
      add none; the lakes it leaves are some of those it was given. */
  lemma RoundCandidates(k: Kernel, t: Table, lakes: seq<Lake>, level: nat)
    requires Valid(t)
    ensures var r := Round(k, t, lakes, level);
      |CandidateSet(r.0)| + r.2 <= |CandidateSet(t)|
  {
    var b := LevelBoundary(t, level);
    var t1 := RiverResult(k, t, Start, level, b);
    RiverResultCandidates(k, t, Start, level, b);
    RiverResultCandidates(k, t1, End, level, b);
    var t2 := LevelRivers(k, t, level, b).0;
    var l1 := LakesResult(k, t2, Start, level, lakes);
    LakesPassCandidates(k, t2, Start, level, lakes);
    LakesPassCandidates(k, l1.0, End, level, l1.1);
    SubsetCard(CandidateSet(LevelLakes(k, t2, level, lakes).0), CandidateSet(t2));
  }

  /** The `while length > 0` loop, entered after `level` with the yield
      `length` of that level. */
  function Rounds(k: Kernel, t: Table, lakes: seq<Lake>, level: nat, length: nat): (r: (Table, seq<Lake>, nat))
    requires Valid(t)
    ensures Valid(r.0)
    decreases |CandidateSet(t)| + (if length > 0 then 1 else 0)
  {
    if length == 0 then (t, lakes, level)
    else
      var s := Round(k, t, lakes, level + 1);
      RoundCandidates(k, t, lakes, level + 1);
      Rounds(k, s.0, s.1, level + 1, s.2)
  }

  /** What execute leaves: the table, the lakes never matched and the last
      level. */
  function ExecuteResult(k: Kernel, t: Table): (r: (Table, seq<Lake>, nat))
    requires Valid(t)
    ensures Valid(r.0)
  {
    var t1 := MarkCandidates(ThinResult(k, t));
    var s := Round(k, t1, LakeList(t1), 0);
    Rounds(k, s.0, s.1, 0, s.2)
  }

  /** The loop stops within as many further levels as there are candidates
      left, plus one when the last yield was positive. */
  lemma {:induction false} RoundsLevels(k: Kernel, t: Table, lakes: seq<Lake>, level: nat, length: nat)
    requires Valid(t)
    ensures Rounds(k, t, lakes, level, length).2 <= level + |CandidateSet(t)| + (if length > 0 then 1 else 0)
    decreases |CandidateSet(t)| + (if length > 0 then 1 else 0)
  {
    if length > 0 {
      var s := Round(k, t, lakes, level + 1);
      RoundCandidates(k, t, lakes, level + 1);
      RoundsLevels(k, s.0, s.1, level + 1, s.2);
    }
  }

  /** The number of levels is at most the number of candidates once the
      streams are marked. */
  lemma ExecuteLevels(k: Kernel, t: Table)
    requires Valid(t)
    ensures ExecuteResult(k, t).2 <= |CandidateSet(MarkCandidates(ThinResult(k, t)))|
  {
    var t1 := MarkCandidates(ThinResult(k, t));
    var s := Round(k, t1, LakeList(t1), 0);
    RoundCandidates(k, t1, LakeList(t1), 0);
    RoundsLevels(k, s.0, s.1, 0, s.2);
  }

  /** The rows counted by "Found ... rivers". */
  predicate IsRiver(s: Segment) {
    Contains(s.kind, "STREAMS") && (!IsClosed(s.geo) || (IsClosed(s.geo) && Contains(s.style, "fill: #36868d")))
  }

  /** The rows counted by "Leave ... rivers": open streams not named `-`. */
  predicate IsUnresolved(s: Segment) {
    IsOpenStream(s) && s.name != "-"
  }

  method RunRivers(k: Kernel, t: Table, level: nat, b: Option<Shape>) returns (r: Table, length: nat)
    requires Valid(t)
    ensures (r, length) == LevelRivers(k, t, level, b)
  {
    var n1, n2;
    r, n1 := HandleRiver(k, t, Start, level, b);
    r, n2 := HandleRiver(k, r, End, level, b);
    length := n1 + n2;
  }

  method RunLakes(k: Kernel, t: Table, level: nat, lakes: seq<Lake>) returns (r: Table, left: seq<Lake>)
    requires Valid(t)
    ensures (r, left) == LevelLakes(k, t, level, lakes)
  {
    r, left := HandleLakes(k, t, Start, level, lakes);
    r, left := HandleLakes(k, r, End, level, left);
  }

  /** One iteration of the level loop (and the level-0 block before it). */
  method RunRound(k: Kernel, t: Table, lakes: seq<Lake>, level: nat)
    returns (r: Table, left: seq<Lake>, length: nat)
    requires Valid(t)
    ensures (r, left, length) == Round(k, t, lakes, level)
  {
    var b := LevelBoundary(t, level);
    r, length := RunRivers(k, t, level, b);
    r, left := RunLakes(k, r, level, lakes);
  }

  method Execute(k: Kernel, t: Table) returns (r: Table, level: nat, found: nat, left: nat)
    requires Valid(t)
    ensures Valid(r)
    ensures var e := ExecuteResult(k, t); r == e.0 && level == e.2
    ensures found == |Select(t, IsRiver)| && left == |Select(r, IsUnresolved)|
  {
    found := |Select(t, IsRiver)|;
    r := ThinAreaRivers(k, t);
    r := MarkCandidates(r);
    var lakes := LakeList(r);
    var length;
    r, lakes, length := RunRound(k, r, lakes, 0);
    level := 0;
    while length > 0
      invariant Valid(r)
      invariant Rounds(k, r, lakes, level, length) == ExecuteResult(k, t)
      decreases |CandidateSet(r)| + (if length > 0 then 1 else 0)
    {
      RoundCandidates(k, r, lakes, level + 1);
      level := level + 1;
      r, lakes, length := RunRound(k, r, lakes, level);
    }
    left := |Select(r, IsUnresolved)|;
  }
}

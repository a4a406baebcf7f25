/** geo_vegetation.py: vegetation areas. Every vegetation outline of the
    lines table is grown into an area; each type is then reduced by the raw
    areas of the types after it (all but the last, shoal/reef), the pieces
    are stored as temporary `VEGTMP/` polygons, which are finally cut to the
    land (or, for shoal/reef, to the sea) and stored as `VEG/` rows.

    Areas are point sets, so union, difference and intersection are exact;
    building an area from an outline and splitting an area into its
    components (ST_Dump) are kernel operations. */
module Vegetation {
  import opened Geo
  import opened Text
  import opened Store

  /** A (multi)polygon as the set of points it covers. */
  type Area = set<Point>

  /** The vegetation types, in priority order: WOODLAND is the default
      cover and SHOAL_x2F_REEF the last. */
  const Types: seq<string> := ["WOODLAND", "CROPLAND", "HEATH", "FOREST", "NEEDLELEAF",
                               "ALPINE", "SNOW_x2F_ICE", "SHOAL_x2F_REEF"]

  /** The temporary sequence `serial` of the script starts here. */
  const SerialStart: nat := 300000

  /** One component of ST_Dump, with whether its ST_GeometryType is
      'ST_Polygon'. */
  datatype Piece = Piece(polygon: bool, area: Area)

  /** The PostGIS operations the script relies on:
      `polygon` is ST_MakePolygon of a closed outline, `buffer` is
      ST_Buffer(ST_MakePolygon(.), EPS, 2), `dump` is ST_Dump. */
  datatype Kernel = Kernel(polygon: Line -> Area, buffer: Line -> Area, dump: Area -> seq<Piece>)

  /** The components of an area lie inside it. */
  ghost predicate DumpLaw(k: Kernel) {
    forall a: Area, i :: 0 <= i < |k.dump(a)| ==> k.dump(a)[i].area <= a
  }

  /** A row of `<prefix>_polys`. */
  datatype Poly = Poly(id: nat, name: string, kind: string, area: Area)

  /** The polys table in row order, and the next value of `serial`. */
  datatype Polys = Polys(rows: seq<Poly>, serial: nat)

  lemma TypesDistinct()
    ensures forall i, j :: 0 <= i < j < |Types| ==> Types[i] != Types[j]
  {
    forall i, j | 0 <= i < j < |Types|
      ensures Types[i] != Types[j]
    {
      if j == 7 && i == 6 {
        assert Types[i][1] != Types[j][1];
      } else {
        assert Types[i][0] != Types[j][0];
      }
    }
  }

  // ---------------------------------------------------------------------
  // Set up: the raw area of each type

  /** The line rows that make up a type: for WOODLAND the land outlines
      (type '0'), otherwise those whose type is LIKE '%typ%'; in both cases
      with more than 3 points. */
  predicate Feeds(typ: string, s: Segment) {
    |s.geo| > 3 && if typ == "WOODLAND" then s.kind == "0" else LikeContains(s.kind, typ)
  }

  /** The area of one such row: land outlines are taken as they are, other
      outlines are first closed with their start point and then grown. */
  function Shape(k: Kernel, typ: string, g: Line): Area {
    if typ == "WOODLAND" then k.polygon(g) else k.buffer(CloseRing(g))
  }

  /** ST_Union of the shapes of the feeding rows with id below `n`. */
  function RawBelow(k: Kernel, t: Table, typ: string, n: nat): (r: Area)
    decreases n
  {
    if n == 0 then {}
    else
      RawBelow(k, t, typ, n - 1) +
      (if n - 1 in t.rows && Feeds(typ, t.rows[n - 1]) then Shape(k, typ, t.rows[n - 1].geo) else {})
  }

  lemma {:induction false} RawBelowMember(k: Kernel, t: Table, typ: string, n: nat, p: Point)
    ensures p in RawBelow(k, t, typ, n) <==>
      exists id :: id < n && id in t.rows && Feeds(typ, t.rows[id]) && p in Shape(k, typ, t.rows[id].geo)
    decreases n
  {
    if n > 0 {
      RawBelowMember(k, t, typ, n - 1, p);
    }
  }

  /** `raw[typ]`, united. */
  function Raw(k: Kernel, t: Table, typ: string): Area {
    RawBelow(k, t, typ, t.serial)
  }

  /** A point is in a raw area exactly when some feeding row covers it. */
  lemma RawMember(k: Kernel, t: Table, typ: string, p: Point)
    requires Valid(t)
    ensures p in Raw(k, t, typ) <==>
      exists id :: id in t.rows && Feeds(typ, t.rows[id]) && p in Shape(k, typ, t.rows[id].geo)
  {
    RawBelowMember(k, t, typ, t.serial, p);
  }

  /** WOODLAND starts as the whole land: the union of the land polygons,
      which is also `land_sql`. */
  lemma WoodlandIsLand(k: Kernel, t: Table, p: Point)
    requires Valid(t)
    ensures p in Raw(k, t, "WOODLAND") <==>
      exists id :: id in t.rows && t.rows[id].kind == "0" && |t.rows[id].geo| > 3 && p in k.polygon(t.rows[id].geo)
  {
    RawMember(k, t, "WOODLAND", p);
  }

  /** The `for typ in types` set-up loop: fills `raw` and keeps the land. */
  method SetUp(k: Kernel, t: Table) returns (raw: map<string, Area>, land: Area)
    ensures forall i :: 0 <= i < |Types| ==> Types[i] in raw && raw[Types[i]] == Raw(k, t, Types[i])
    ensures land == Raw(k, t, "WOODLAND")
  {
    raw := map[];
    land := {};
    var i := 0;
    while i < |Types|
      invariant 0 <= i <= |Types|
      invariant forall m :: 0 <= m < i ==> Types[m] in raw && raw[Types[m]] == Raw(k, t, Types[m])
      invariant i > 0 ==> land == Raw(k, t, "WOODLAND")
    {
      var typ := Types[i];
      if typ == "WOODLAND" {
        land := Raw(k, t, typ);
      }
      raw := raw[typ := Raw(k, t, typ)];
      i := i + 1;
    }
  }

  // ---------------------------------------------------------------------
  // Normalisation

  /** An area after removing the raw areas of types `lo` to `hi - 1`, one
      after the other. */
  function ReduceBy(k: Kernel, t: Table, a: Area, lo: nat, hi: nat): (r: Area)
    requires hi <= |Types|
    decreases hi
  {
    if hi <= lo then a else ReduceBy(k, t, a, lo, hi - 1) - Raw(k, t, Types[hi - 1])
  }

  lemma {:induction false} ReduceByMember(k: Kernel, t: Table, a: Area, lo: nat, hi: nat, p: Point)
    requires hi <= |Types|
    ensures p in ReduceBy(k, t, a, lo, hi) <==> p in a && forall j :: lo <= j < hi ==> p !in Raw(k, t, Types[j])
    decreases hi
  {
    if lo < hi {
      ReduceByMember(k, t, a, lo, hi - 1, p);
    }
  }

  /** `redux[types[i]]`: type i reduced by every type j with i < j < 7. */
  function Normalized(k: Kernel, t: Table, i: nat): Area
    requires i < |Types|
  {
    ReduceBy(k, t, Raw(k, t, Types[i]), i + 1, |Types| - 1)
  }

  /** A point keeps type i exactly when type i covers it and no later type
      but the last does. */
  lemma NormalizedMember(k: Kernel, t: Table, i: nat, p: Point)
    requires i < |Types|
    ensures p in Normalized(k, t, i) <==>
      p in Raw(k, t, Types[i]) && forall j :: i < j < |Types| - 1 ==> p !in Raw(k, t, Types[j])
  {
    ReduceByMember(k, t, Raw(k, t, Types[i]), i + 1, |Types| - 1, p);
  }

  /** Normalising only ever removes area. */
  lemma NormalizedWithinRaw(k: Kernel, t: Table, i: nat)
    requires i < |Types|
    ensures Normalized(k, t, i) <= Raw(k, t, Types[i])
  {
    forall p | p in Normalized(k, t, i)
      ensures p in Raw(k, t, Types[i])
    {
      NormalizedMember(k, t, i, p);
    }
  }

  /** Any two normalised types other than the last are disjoint. */
  lemma NormalizedDisjoint(k: Kernel, t: Table, i: nat, j: nat)
    requires i < j < |Types| - 1
    ensures Normalized(k, t, i) !! Normalized(k, t, j)
  {
    forall p | p in Normalized(k, t, i) && p in Normalized(k, t, j)
      ensures false
    {
      NormalizedMember(k, t, i, p);
      NormalizedMember(k, t, j, p);
    }
  }

  /** SNOW_x2F_ICE and SHOAL_x2F_REEF are never reduced. */
  lemma LastTwoUnreduced(k: Kernel, t: Table, i: nat)
    requires |Types| - 2 <= i < |Types|
    ensures Normalized(k, t, i) == Raw(k, t, Types[i])
  {
  }

  /** SHOAL_x2F_REEF never reduces another type: the other types come out
      the same whatever the shoal outlines are. */
  lemma ShoalReducesNothing(k: Kernel, t: Table, u: Table, i: nat)
    requires i < |Types|
    requires forall j :: 0 <= j < |Types| - 1 ==> Raw(k, u, Types[j]) == Raw(k, t, Types[j])
    ensures i < |Types| - 1 ==> Normalized(k, u, i) == Normalized(k, t, i)
  {
    if i < |Types| - 1 {
      forall p
        ensures p in Normalized(k, u, i) <==> p in Normalized(k, t, i)
      {
        NormalizedMember(k, t, i, p);
        NormalizedMember(k, u, i, p);
      }
    }
  }

  // ---------------------------------------------------------------------
  // Inserting pieces

  /** The rows an INSERT ... SELECT over ST_Dump adds, ids drawn from `next`
      on: every piece, or only the polygon pieces. */
  function Emit(pieces: seq<Piece>, polygonsOnly: bool, kind: string, next: nat): (r: seq<Poly>)
    ensures |r| <= |pieces|
    decreases |pieces|
  {
    if pieces == [] then []
    else if !polygonsOnly || pieces[0].polygon then
      [Poly(next, "-", kind, pieces[0].area)] + Emit(pieces[1..], polygonsOnly, kind, next + 1)
    else Emit(pieces[1..], polygonsOnly, kind, next)
  }

  /** Every emitted row is named '-', has the given type, a fresh id and the
      area of a (polygon) piece; without the filter no piece is lost. */
  lemma {:induction false} EmitRows(pieces: seq<Piece>, polygonsOnly: bool, kind: string, next: nat)
    ensures var r := Emit(pieces, polygonsOnly, kind, next);
      && (!polygonsOnly ==> |r| == |pieces|)
      && forall row :: row in r ==>
           && row.name == "-" && row.kind == kind && next <= row.id < next + |r|
           && exists i :: 0 <= i < |pieces| && pieces[i].area == row.area && (polygonsOnly ==> pieces[i].polygon)
    decreases |pieces|
  {
    if pieces != [] {
      var rest := pieces[1..];
      EmitRows(rest, polygonsOnly, kind, if !polygonsOnly || pieces[0].polygon then next + 1 else next);
      forall i | 0 <= i < |rest|
        ensures rest[i] == pieces[i + 1]
      {
      }
    }
  }

  /** Append the emitted rows and advance `serial` past them. */
  function AddPieces(p: Polys, pieces: seq<Piece>, polygonsOnly: bool, kind: string): (r: Polys)
    ensures r.serial == p.serial + |r.rows| - |p.rows| && p.rows <= r.rows
  {
    var e := Emit(pieces, polygonsOnly, kind, p.serial);
    Polys(p.rows + e, p.serial + |e|)
  }

  /** The polys table after the first `n` types have stored their polygon
      pieces as `VEGTMP/<type>` rows. */
  function TmpStage(k: Kernel, t: Table, p: Polys, n: nat): (r: Polys)
    requires n <= |Types|
    decreases n
  {
    if n == 0 then p
    else AddPieces(TmpStage(k, t, p, n - 1), k.dump(Normalized(k, t, n - 1)), true, "VEGTMP/" + Types[n - 1])
  }

  /** Every row the normalisation adds is a polygon piece of a normalised
      type, stored under that type. */
  lemma {:induction false} TmpStageRows(k: Kernel, t: Table, p: Polys, n: nat)
    requires n <= |Types| && DumpLaw(k)
    ensures forall row :: row in TmpStage(k, t, p, n).rows ==>
      (row in p.rows ||
       exists i :: 0 <= i < n && row.name == "-" && row.kind == "VEGTMP/" + Types[i] &&
         row.area <= Normalized(k, t, i) && TmpPiece(k, t, i, row.area))
    decreases n
  {
    if n > 0 {
      TmpStageRows(k, t, p, n - 1);
      var prev := TmpStage(k, t, p, n - 1);
      var pieces := k.dump(Normalized(k, t, n - 1));
      EmitRows(pieces, true, "VEGTMP/" + Types[n - 1], prev.serial);
      forall row | row in TmpStage(k, t, p, n).rows && row !in prev.rows
        ensures row.name == "-" && row.kind == "VEGTMP/" + Types[n - 1] &&
          row.area <= Normalized(k, t, n - 1) && TmpPiece(k, t, n - 1, row.area)
      {
        var e := Emit(pieces, true, "VEGTMP/" + Types[n - 1], prev.serial);
        assert row in e;
        var m :| 0 <= m < |pieces| && pieces[m].area == row.area && pieces[m].polygon;
      }
    }
  }

  /** `a` is the area of a polygon piece of normalised type i. */
  ghost predicate TmpPiece(k: Kernel, t: Table, i: nat, a: Area)
    requires i < |Types|
  {
    exists m :: 0 <= m < |k.dump(Normalized(k, t, i))| &&
      k.dump(Normalized(k, t, i))[m].polygon && k.dump(Normalized(k, t, i))[m].area == a
  }

  /** The `for i in range(len(types))` loop with its inner reduction loop
      over `j`: rewrites `redux` and stores the polygon pieces. */
  method Normalize(k: Kernel, t: Table, raw: map<string, Area>, p: Polys)
    returns (redux: map<string, Area>, r: Polys)
    requires forall i :: 0 <= i < |Types| ==> Types[i] in raw && raw[Types[i]] == Raw(k, t, Types[i])
    ensures forall i :: 0 <= i < |Types| ==> Types[i] in redux && redux[Types[i]] == Normalized(k, t, i)
    ensures r == TmpStage(k, t, p, |Types|)
  {
    TypesDistinct();
    redux := map[];
    r := p;
    var i := 0;
    while i < |Types|
      invariant 0 <= i <= |Types|
      invariant forall m :: 0 <= m < i ==> Types[m] in redux && redux[Types[m]] == Normalized(k, t, m)
      invariant r == TmpStage(k, t, p, i)
    {
      var typ := Types[i];
      redux := redux[typ := raw[typ]];
      var j := i + 1;
      while j < |Types| - 1
        invariant i + 1 <= j <= |Types|
        invariant j > |Types| - 1 ==> j == i + 1
        invariant forall m :: 0 <= m < i ==> Types[m] in redux && redux[Types[m]] == Normalized(k, t, m)
        invariant typ in redux && redux[typ] == ReduceBy(k, t, Raw(k, t, typ), i + 1, j)
      {
        redux := redux[typ := redux[typ] - raw[Types[j]]];
        j := j + 1;
      }
      r := AddPieces(r, k.dump(redux[typ]), true, "VEGTMP/" + typ);
      i := i + 1;
    }
  }

  // ---------------------------------------------------------------------
  // Restriction to land or sea, and cleanup

  predicate IsTmp(row: Poly) {
    Contains(row.kind, "VEGTMP/")
  }

  predicate IsShoal(row: Poly) {
    Contains(row.kind, "SHOAL")
  }

  /** `'VEG/' || substring(type, 7)` */
  function VegKind(kind: string): string {
    "VEG/" + SubstringFrom(kind, 7)
  }

  /** On a `VEGTMP/<type>` row the 7th character is the slash, so the new
      type is `VEG//<type>`. */
  lemma VegKindOfTmp(typ: string)
    ensures VegKind("VEGTMP/" + typ) == "VEG//" + typ
  {
    VegKindAfter("VEGTMP/", typ);
  }

  /** The new type keeps what follows the first six characters. */
  lemma VegKindAfter(pre: string, typ: string)
    requires |pre| >= 6
    ensures VegKind(pre + typ) == "VEG/" + pre[6..] + typ
  {
    assert (pre + typ)[6..] == pre[6..] + typ;
  }

  /** The cut a restriction applies: the part on land, or, for shoal/reef,
      the part off land. */
  function Cut(a: Area, land: Area, shoal: bool): (r: Area)
    ensures r <= a
    ensures shoal ==> r !! land
    ensures !shoal ==> r <= land
  {
    if shoal then a - land else a * land
  }

  /** Whether a restricting INSERT reads row `s`. */
  predicate Restricts(s: Poly, shoal: bool) {
    IsTmp(s) && IsShoal(s) == shoal
  }

  /** The rows one restricting INSERT adds for one row `s`. */
  function Pieces(k: Kernel, s: Poly, land: Area, shoal: bool, next: nat): seq<Poly> {
    if Restricts(s, shoal) then Emit(k.dump(Cut(s.area, land, shoal)), false, VegKind(s.kind), next) else []
  }

  lemma PiecesRows(k: Kernel, s: Poly, land: Area, shoal: bool, next: nat)
    requires DumpLaw(k)
    ensures forall row :: row in Pieces(k, s, land, shoal, next) ==>
      Restricts(s, shoal) && row.name == "-" && row.kind == VegKind(s.kind) && row.area <= Cut(s.area, land, shoal)
  {
    if Restricts(s, shoal) {
      var pieces := k.dump(Cut(s.area, land, shoal));
      EmitRows(pieces, false, VegKind(s.kind), next);
      forall row | row in Pieces(k, s, land, shoal, next)
        ensures row.area <= Cut(s.area, land, shoal)
      {
        var m :| 0 <= m < |pieces| && pieces[m].area == row.area;
      }
    }
  }

  /** The rows one restricting INSERT adds, for the temporary rows of `src`
      that are (or are not) shoal/reef, in row order. */
  function Restrict(k: Kernel, src: seq<Poly>, land: Area, shoal: bool, next: nat): (r: seq<Poly>)
    decreases |src|
  {
    if src == [] then []
    else
      var head := Pieces(k, src[0], land, shoal, next);
      head + Restrict(k, src[1..], land, shoal, next + |head|)
  }

  /** A restricted row: named '-', typed after its temporary row `s`, within
      it, and on land or, for shoal/reef, off land. */
  ghost predicate CutFrom(row: Poly, src: seq<Poly>, land: Area, shoal: bool) {
    && row.name == "-"
    && (shoal ==> row.area !! land)
    && (!shoal ==> row.area <= land)
    && exists s :: s in src && Restricts(s, shoal) && row.kind == VegKind(s.kind) && row.area <= s.area
  }

  /** Every restricted row comes from a temporary row of the right kind. */
  lemma {:induction false} RestrictRows(k: Kernel, src: seq<Poly>, land: Area, shoal: bool, next: nat)
    requires DumpLaw(k)
    ensures forall row :: row in Restrict(k, src, land, shoal, next) ==> CutFrom(row, src, land, shoal)
    decreases |src|
  {
    if src != [] {
      var head := Pieces(k, src[0], land, shoal, next);
      var rest := Restrict(k, src[1..], land, shoal, next + |head|);
      RestrictRows(k, src[1..], land, shoal, next + |head|);
      PiecesRows(k, src[0], land, shoal, next);
      forall row | row in head + rest
        ensures CutFrom(row, src, land, shoal)
      {
        if row in head {
          assert src[0] in src;
        } else {
          var s :| s in src[1..] && Restricts(s, shoal) && row.kind == VegKind(s.kind) && row.area <= s.area;
          assert s in src;
        }
      }
    }
  }

  /** One restricting INSERT on the whole table. */
  function RestrictStage(k: Kernel, p: Polys, land: Area, shoal: bool): (r: Polys)
    ensures p.rows <= r.rows
  {
    var e := Restrict(k, p.rows, land, shoal, p.serial);
    Polys(p.rows + e, p.serial + |e|)
  }

  /** The rows that are not temporary. */
  function DropTmp(rows: seq<Poly>): (r: seq<Poly>)
    decreases |rows|
  {
    if rows == [] then []
    else (if IsTmp(rows[0]) then [] else [rows[0]]) + DropTmp(rows[1..])
  }

  /** DELETE ... WHERE type LIKE '%VEGTMP/%' removes exactly the temporary
      rows and keeps the order of the others. */
  lemma {:induction false} DropTmpRows(rows: seq<Poly>)
    ensures forall row :: row in DropTmp(rows) <==> row in rows && !IsTmp(row)
    decreases |rows|
  {
    if rows != [] {
      DropTmpRows(rows[1..]);
      assert forall row :: row in rows <==> row == rows[0] || row in rows[1..];
    }
  }

  function Cleanup(p: Polys): Polys {
    Polys(DropTmp(p.rows), p.serial)
  }

  /** The whole script on the lines table `t` and the existing polys rows. */
  function VegResult(k: Kernel, t: Table, rows: seq<Poly>): Polys {
    var land := Raw(k, t, "WOODLAND");
    var p1 := TmpStage(k, t, Polys(rows, SerialStart), |Types|);
    var p2 := RestrictStage(k, p1, land, false);
    var p3 := RestrictStage(k, p2, land, true);
    Cleanup(p3)
  }

  /** At the end no temporary row is left; every row is an old row or a
      `VEG/` row cut from a temporary one, lying on land, or off land for
      shoal/reef. */
  lemma VegFinal(k: Kernel, t: Table, rows: seq<Poly>)
    requires DumpLaw(k)
    ensures var land := Raw(k, t, "WOODLAND");
      var p1 := TmpStage(k, t, Polys(rows, SerialStart), |Types|);
      var p2 := RestrictStage(k, p1, land, false);
      forall row :: row in VegResult(k, t, rows).rows ==>
        && !IsTmp(row)
        && (row in p1.rows || CutFrom(row, p1.rows, land, false) || CutFrom(row, p2.rows, land, true))
  {
    var land := Raw(k, t, "WOODLAND");
    var p1 := TmpStage(k, t, Polys(rows, SerialStart), |Types|);
    var p2 := RestrictStage(k, p1, land, false);
    var p3 := RestrictStage(k, p2, land, true);
    DropTmpRows(p3.rows);
    RestrictRows(k, p1.rows, land, false, p1.serial);
    RestrictRows(k, p2.rows, land, true, p2.serial);
  }

  /** `main` after the connection: set-up, normalisation, the two
      restricting inserts and the final delete. */
  method Execute(k: Kernel, t: Table, rows: seq<Poly>) returns (r: Polys)
    ensures r == VegResult(k, t, rows)
  {
    var raw, land := SetUp(k, t);
    var redux, p1 := Normalize(k, t, raw, Polys(rows, SerialStart));
    var p2 := RestrictStage(k, p1, land, false);
    var p3 := RestrictStage(k, p2, land, true);
    r := Cleanup(p3);
  }
}

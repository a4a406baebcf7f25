/** The `<prefix>_lines` feature table: rows keyed by id, and the `serial`
    sequence that `nextval('serial')` draws new ids from. A query without
    ORDER BY is read in ascending id order. */
module Store {
  import opened Geo

  /** One row: `name`, `type`, `wkb_geometry` and `style` (NULL is ""). */
  datatype Segment = Segment(name: string, kind: string, geo: Line, style: string)

  datatype Table = Table(rows: map<nat, Segment>, serial: nat)

  /** Every id in use was drawn from the sequence before. */
  predicate Valid(t: Table) {
    forall id :: id in t.rows ==> id < t.serial
  }

  /** INSERT ... VALUES (nextval('serial'), ...) RETURNING id */
  function Insert(t: Table, s: Segment): (r: (Table, nat))
    requires Valid(t)
    ensures Valid(r.0) && r.1 == t.serial && r.0.serial == t.serial + 1
    ensures r.1 !in t.rows && r.0.rows == t.rows[r.1 := s]
  {
    (Table(t.rows[t.serial := s], t.serial + 1), t.serial)
  }

  /** DELETE FROM ... WHERE id = id */
  function Delete(t: Table, id: nat): (r: Table)
    requires Valid(t)
    ensures Valid(r) && r.serial == t.serial
    ensures id !in r.rows && forall j :: j != id ==> (j in r.rows <==> j in t.rows)
    ensures forall j :: j in r.rows ==> r.rows[j] == t.rows[j]
  {
    Table(t.rows - {id}, t.serial)
  }

  /** UPDATE ... SET wkb_geometry = g WHERE id = id */
  function SetGeo(t: Table, id: nat, g: Line): (r: Table)
    requires Valid(t)
    ensures Valid(r) && r.serial == t.serial && r.rows.Keys == t.rows.Keys
    ensures id in t.rows ==> r.rows[id] == t.rows[id].(geo := g)
    ensures forall j :: j in t.rows && j != id ==> r.rows[j] == t.rows[j]
  {
    if id in t.rows then Table(t.rows[id := t.rows[id].(geo := g)], t.serial) else t
  }

  /** The ids below `n` of rows satisfying `p`, ascending. */
  function IdsBelow(rows: map<nat, Segment>, p: Segment -> bool, n: nat): (r: seq<nat>)
    ensures forall id {:trigger id in r} :: id in r <==> id < n && id in rows && p(rows[id])
    ensures forall i, j :: 0 <= i < j < |r| ==> r[i] < r[j]
    decreases n
  {
    if n == 0 then []
    else
      var rest := IdsBelow(rows, p, n - 1);
      assert forall x :: x in rest ==> x < n - 1;
      assert forall k :: 0 <= k < |rest| ==> rest[k] in rest;
      rest + (if n - 1 in rows && p(rows[n - 1]) then [n - 1] else [])
  }

  /** SELECT id FROM t WHERE p ORDER BY id */
  function Select(t: Table, p: Segment -> bool): (r: seq<nat>)
    requires Valid(t)
    ensures forall id {:trigger id in r} :: id in r <==> id in t.rows && p(t.rows[id])
    ensures forall i, j :: 0 <= i < j < |r| ==> r[i] < r[j]
  {
    IdsBelow(t.rows, p, t.serial)
  }

  predicate Increasing(ids: seq<nat>) {
    forall i, j :: 0 <= i < j < |ids| ==> ids[i] < ids[j]
  }

  /** The geometries of the selected rows, in id order: the operand of an
      aggregate ST_Union over them. */
  function Geos(t: Table, ids: seq<nat>): (r: seq<Line>)
    requires forall id :: id in ids ==> id in t.rows
    ensures |r| == |ids| && forall i :: 0 <= i < |ids| ==> r[i] == t.rows[ids[i]].geo
  {
    seq(|ids|, i requires 0 <= i < |ids| => t.rows[ids[i]].geo)
  }
}

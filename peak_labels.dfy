/** geo_pts.py: naming the peaks. Every PEAK point takes the nearest
    `PEAKN/` label point, if it is closer than 0.03, and the label text is
    decoded into a name (the leading letters, title-cased) and an elevation
    (the trailing digits). The name is written as a quoted SQL literal, the
    elevation as a bare numeric literal. */
module PeakLabels {
  import opened Geo
  import opened Text
  import opened Optional

  /** A row of a points table: `name`, `type`, position and `svgid`. */
  datatype Pt = Pt(name: string, kind: string, pos: Point, svgid: string)

  datatype Pts = Pts(rows: map<nat, Pt>, serial: nat)

  predicate Valid(t: Pts) {
    forall id :: id in t.rows ==> id < t.serial
  }

  /** ST_Distance between two points. */
  datatype Kernel = Kernel(dist: (Point, Point) -> real)

  /** Labels must be nearer than this. */
  const MaxDist: real := 0.03

  // ---------------------------------------------------------------------
  // Decoding a label

  const Digits: set<char> := set c: char | '0' <= c <= '9'

  /** The characters `ltrim` strips: the capitals and the apostrophe. */
  const Capitals: set<char> := (set c: char | 'A' <= c <= 'Z') + {'\''}

  /** `substring(name from 7)`: the label without its `PEAKN/` prefix. */
  function LabelText(name: string): string {
    SubstringFrom(name, 7)
  }

  /** `substring(s for 1)` */
  function First(s: string): (r: string)
    ensures r <= s && |r| == if |s| > 0 then 1 else 0
  {
    if |s| == 0 then "" else s[..1]
  }

  /** The name: the first character, then the rest of the label with its
      trailing digits trimmed, lower-cased. */
  function PeakName(txt: string): string {
    First(txt) + Lower(SubstringFrom(RTrim(txt, Digits), 2))
  }

  /** The elevation: the label with its leading capitals and apostrophes
      trimmed. */
  function Elevation(txt: string): string {
    LTrim(txt, Capitals)
  }

  /** A label made of a word in capitals (and apostrophes) and a number
      decodes to the word, title-cased, and the number. */
  lemma DecodeLabel(w: string, d: string)
    requires |w| > 0 && forall i :: 0 <= i < |w| ==> w[i] in Capitals
    requires forall i :: 0 <= i < |d| ==> d[i] in Digits
    ensures PeakName(w + d) == [w[0]] + Lower(w[1..])
    ensures Elevation(w + d) == d
  {
    assert w[|w| - 1] in Capitals;
    RTrimAppend(w, d, Digits);
    NameOfCore(w + d, w);
    LTrimAppend(w, d, Capitals);
  }

  /** The name of a label whose digit-trimmed form is `core`. */
  lemma NameOfCore(txt: string, core: string)
    requires |core| > 0 && core <= txt && RTrim(txt, Digits) == core
    ensures PeakName(txt) == [core[0]] + Lower(core[1..])
  {
    assert First(txt) == [core[0]];
    assert SubstringFrom(core, 2) == core[1..];
  }

  /** The name's first character is the label's; every other character is
      a lower-cased label character at the same place, before the trailing
      digits. */
  lemma PeakNameShape(txt: string)
    requires |txt| > 0
    ensures var r := PeakName(txt); var core := RTrim(txt, Digits);
      && r[0] == txt[0]
      && |r| == (if |core| > 0 then |core| else 1)
      && forall i :: 1 <= i < |r| ==> r[i] == LowerChar(txt[i])
  {
    var core := RTrim(txt, Digits);
    var tail := SubstringFrom(core, 2);
    var r := PeakName(txt);
    assert r == txt[..1] + Lower(tail);
    if |core| > 0 {
      assert tail == core[1..] && core == txt[..|core|];
      forall i | 1 <= i < |r|
        ensures r[i] == LowerChar(txt[i])
      {
        assert r[i] == Lower(tail)[i - 1] == LowerChar(core[i]);
      }
    } else {
      assert tail == "";
    }
  }

  // ---------------------------------------------------------------------
  // Quoting

  /** `s.replace("'", "''")` */
  function Quote(s: string): (r: string)
    decreases |s|
  {
    if s == [] then []
    else (if s[0] == '\'' then "''" else [s[0]]) + Quote(s[1..])
  }

  /** The value of a quoted SQL string literal's body: `''` stands for an
      apostrophe. */
  function Unquote(q: string): string
    decreases |q|
  {
    if q == [] then []
    else if |q| >= 2 && q[0] == '\'' && q[1] == '\'' then "'" + Unquote(q[2..])
    else [q[0]] + Unquote(q[1..])
  }

  /** Every apostrophe comes doubled, so the literal cannot end early. */
  predicate Escaped(q: string)
    decreases |q|
  {
    q == [] ||
    (q[0] != '\'' && Escaped(q[1..])) ||
    (|q| >= 2 && q[0] == '\'' && q[1] == '\'' && Escaped(q[2..]))
  }

  /** Quoting makes a well-formed literal whose value is the name. */
  lemma {:induction false} QuoteRoundTrip(s: string)
    ensures Escaped(Quote(s)) && Unquote(Quote(s)) == s
    decreases |s|
  {
    if s != [] {
      QuoteRoundTrip(s[1..]);
      var q := Quote(s);
      if s[0] == '\'' {
        assert q == "''" + Quote(s[1..]) && q[2..] == Quote(s[1..]);
      } else {
        assert q == [s[0]] + Quote(s[1..]) && q[1..] == Quote(s[1..]);
      }
      assert s == [s[0]] + s[1..];
    }
  }

  // ---------------------------------------------------------------------
  // The nearest label

  predicate IsLabel(p: Pt) {
    Contains(p.name, "PEAKN")
  }

  /** The nearest label point among the ids below `n`: the LATERAL
      `ORDER BY ST_Distance LIMIT 1`, the lowest id on ties. */
  function NearestBelow(k: Kernel, t: Pts, at: Point, n: nat): (r: Option<nat>)
    ensures r.Some? ==> r.value < n && r.value in t.rows && IsLabel(t.rows[r.value])
    decreases n
  {
    if n == 0 then None
    else
      var rest := NearestBelow(k, t, at, n - 1);
      var j := n - 1;
      if j in t.rows && IsLabel(t.rows[j]) &&
         (rest.None? || k.dist(at, t.rows[j].pos) < k.dist(at, t.rows[rest.value].pos))
      then Some(j)
      else rest
  }

  /** The choice is a label at least as near as every other label, and
      there is none only when no label exists. */
  lemma {:induction false} NearestLeast(k: Kernel, t: Pts, at: Point, n: nat)
    ensures var r := NearestBelow(k, t, at, n);
      && (r.None? <==> forall j :: j < n && j in t.rows ==> !IsLabel(t.rows[j]))
      && (r.Some? ==> forall j :: j < n && j in t.rows && IsLabel(t.rows[j]) ==>
            k.dist(at, t.rows[r.value].pos) <= k.dist(at, t.rows[j].pos))
    decreases n
  {
    if n > 0 {
      NearestLeast(k, t, at, n - 1);
    }
  }

  function Nearest(k: Kernel, t: Pts, at: Point): Option<nat> {
    NearestBelow(k, t, at, t.serial)
  }

  /** A PEAK point whose nearest label is closer than 0.03. */
  predicate Labelled(k: Kernel, t: Pts, id: nat)
    requires id in t.rows
  {
    var p := t.rows[id];
    var c := Nearest(k, t, p.pos);
    p.kind == "PEAK" && c.Some? && k.dist(p.pos, t.rows[c.value].pos) < MaxDist
  }

  /** The label text for a labelled point. */
  function LabelOf(k: Kernel, t: Pts, id: nat): string
    requires id in t.rows && Labelled(k, t, id)
  {
    LabelText(t.rows[Nearest(k, t, t.rows[id].pos).value].name)
  }

  /** The ids of the labelled points below `n`, ascending. */
  function LabelledBelow(k: Kernel, t: Pts, n: nat): (r: seq<nat>)
    ensures forall id {:trigger id in r} :: id in r <==> id < n && id in t.rows && Labelled(k, t, id)
    ensures forall i, j :: 0 <= i < j < |r| ==> r[i] < r[j]
    decreases n
  {
    if n == 0 then []
    else
      var rest := LabelledBelow(k, t, n - 1);
      assert forall i :: 0 <= i < |rest| ==> rest[i] in rest;
      rest + (if n - 1 in t.rows && Labelled(k, t, n - 1) then [n - 1] else [])
  }

  /** A bare numeric literal; anything else makes the UPDATE malformed. */
  predicate Numeral(s: string) {
    |s| > 0 && forall i :: 0 <= i < |s| ==> s[i] in Digits
  }

  /** The `<prefix>_pts` row after the script: labelled points (read from
      `xyz_pts`) take the decoded name and elevation. */
  function Expected(k: Kernel, src: Pts, dst: Pts, id: nat): Pt
    requires id in dst.rows
  {
    if id in src.rows && Labelled(k, src, id) then
      dst.rows[id].(name := PeakName(LabelOf(k, src, id)), svgid := Elevation(LabelOf(k, src, id)))
    else dst.rows[id]
  }

  /** One row of the query result: the point, its name and elevation. */
  datatype Update = Update(id: nat, name: string, svgid: string)

  function Decode(k: Kernel, src: Pts, id: nat): Update
    requires id in src.rows && Labelled(k, src, id)
  {
    var txt := LabelOf(k, src, id);
    Update(id, PeakName(txt), Elevation(txt))
  }

  /** The result rows of the query over the points below `n`: one row per
      labelled point, ascending by id, carrying its decoded name and
      elevation. */
  function QueryBelow(k: Kernel, src: Pts, n: nat): (r: seq<Update>)
    ensures var ids := LabelledBelow(k, src, n);
      |r| == |ids| && forall j :: 0 <= j < |r| ==> r[j].id == ids[j]
    decreases n
  {
    if n == 0 then []
    else QueryBelow(k, src, n - 1) + (if n - 1 in src.rows && Labelled(k, src, n - 1) then [Decode(k, src, n - 1)] else [])
  }

  /** A result row that is the decoding of its own labelled point. */
  predicate Decoded(k: Kernel, src: Pts, u: Update) {
    u.id in src.rows && Labelled(k, src, u.id) && u == Decode(k, src, u.id)
  }

  lemma DecodedAppend(k: Kernel, src: Pts, a: seq<Update>, b: seq<Update>)
    requires forall j :: 0 <= j < |a| ==> Decoded(k, src, a[j])
    requires forall j :: 0 <= j < |b| ==> Decoded(k, src, b[j])
    ensures forall j :: 0 <= j < |a + b| ==> Decoded(k, src, (a + b)[j])
  {
    forall j | 0 <= j < |a + b|
      ensures Decoded(k, src, (a + b)[j])
    {
      if j < |a| {
        assert (a + b)[j] == a[j];
      } else {
        assert (a + b)[j] == b[j - |a|];
      }
    }
  }

  /** Each result row is the decoding of its own point. */
  lemma {:induction false} QueryDecodes(k: Kernel, src: Pts, n: nat)
    ensures forall j :: 0 <= j < |QueryBelow(k, src, n)| ==> Decoded(k, src, QueryBelow(k, src, n)[j])
    decreases n
  {
    if n > 0 {
      QueryDecodes(k, src, n - 1);
      var tail: seq<Update> := [];
      if n - 1 in src.rows && Labelled(k, src, n - 1) {
        tail := [Decode(k, src, n - 1)];
        assert Decoded(k, src, tail[0]);
      }
      DecodedAppend(k, src, QueryBelow(k, src, n - 1), tail);
      assert QueryBelow(k, src, n) == QueryBelow(k, src, n - 1) + tail;
    }
  }

  /** The `for row in cursor.fetchall()` loop over the query result: quote
      the name and run `UPDATE ... SET name = '<quoted>', svgid = <elevation>
      WHERE id = ..`. None when an elevation is not a numeral and the UPDATE
      is malformed. */
  method ApplyUpdates(rows: map<nat, Pt>, us: seq<Update>) returns (r: Option<map<nat, Pt>>)
    requires forall i, j :: 0 <= i < j < |us| ==> us[i].id < us[j].id
    ensures r.None? <==> exists j :: 0 <= j < |us| && !Numeral(us[j].svgid)
    ensures r.Some? ==> r.value.Keys == rows.Keys
    ensures r.Some? ==> forall j :: 0 <= j < |us| && us[j].id in rows ==>
      r.value[us[j].id] == rows[us[j].id].(name := us[j].name, svgid := us[j].svgid)
    ensures r.Some? ==> forall id :: id in rows && (forall j :: 0 <= j < |us| ==> us[j].id != id) ==> r.value[id] == rows[id]
  {
    var cur := rows;
    var i := 0;
    while i < |us|
      invariant 0 <= i <= |us| && cur.Keys == rows.Keys
      invariant forall j :: 0 <= j < i ==> Numeral(us[j].svgid)
      invariant forall j :: 0 <= j < i && us[j].id in rows ==>
        cur[us[j].id] == rows[us[j].id].(name := us[j].name, svgid := us[j].svgid)
      invariant forall id :: id in rows && (forall j :: 0 <= j < i ==> us[j].id != id) ==> cur[id] == rows[id]
    {
      var u := us[i];
      if !Numeral(u.svgid) {
        return None;
      }
      var literal := Quote(u.name);
      QuoteRoundTrip(u.name);
      if u.id in cur {
        cur := cur[u.id := cur[u.id].(name := Unquote(literal), svgid := u.svgid)];
      }
      i := i + 1;
    }
    r := Some(cur);
  }

  /** A labelled point's row after its UPDATE is the expected row. */
  lemma UpdatedExpected(k: Kernel, src: Pts, dst: Pts, m: map<nat, Pt>, u: Update)
    requires u.id in src.rows && Labelled(k, src, u.id) && u == Decode(k, src, u.id)
    requires u.id in dst.rows && u.id in m
    requires m[u.id] == dst.rows[u.id].(name := u.name, svgid := u.svgid)
    ensures m[u.id] == Expected(k, src, dst, u.id)
  {
  }

  /** The updates of the query result are exactly the expected rows. */
  lemma ResultsExpected(k: Kernel, src: Pts, dst: Pts, m: map<nat, Pt>)
    requires Valid(src)
    requires var us := QueryBelow(k, src, src.serial);
      && m.Keys == dst.rows.Keys
      && (forall j :: 0 <= j < |us| && us[j].id in dst.rows ==>
            m[us[j].id] == dst.rows[us[j].id].(name := us[j].name, svgid := us[j].svgid))
      && (forall id :: id in dst.rows && (forall j :: 0 <= j < |us| ==> us[j].id != id) ==> m[id] == dst.rows[id])
    ensures forall id :: id in dst.rows ==> m[id] == Expected(k, src, dst, id)
  {
    var us := QueryBelow(k, src, src.serial);
    var ids := LabelledBelow(k, src, src.serial);
    QueryDecodes(k, src, src.serial);
    forall id | id in dst.rows
      ensures m[id] == Expected(k, src, dst, id)
    {
      if id in src.rows && Labelled(k, src, id) {
        assert id in ids;
        var j :| 0 <= j < |ids| && ids[j] == id;
        UpdatedExpected(k, src, dst, m, us[j]);
      } else {
        assert id !in ids;
        forall j | 0 <= j < |us| ensures us[j].id != id {
          assert ids[j] in ids;
        }
      }
    }
  }

  /** A result row's elevation is the decoded elevation of its point. */
  lemma RowElevation(k: Kernel, src: Pts, j: nat)
    requires j < |QueryBelow(k, src, src.serial)|
    ensures var u := QueryBelow(k, src, src.serial)[j];
      u.id in src.rows && Labelled(k, src, u.id) && u.svgid == Elevation(LabelOf(k, src, u.id))
  {
    QueryDecodes(k, src, src.serial);
    assert Decoded(k, src, QueryBelow(k, src, src.serial)[j]);
  }

  /** Every labelled point has its result row. */
  lemma LabelRow(k: Kernel, src: Pts, id: nat)
    requires Valid(src) && id in src.rows && Labelled(k, src, id)
    ensures exists j :: 0 <= j < |QueryBelow(k, src, src.serial)| && QueryBelow(k, src, src.serial)[j].id == id
  {
    var ids := LabelledBelow(k, src, src.serial);
    assert id in ids;
    var j :| 0 <= j < |ids| && ids[j] == id;
    assert QueryBelow(k, src, src.serial)[j].id == id;
  }

  /** Some result row carries a malformed elevation exactly when some
      labelled point's label decodes to one. */
  lemma QueryMalformed(k: Kernel, src: Pts)
    requires Valid(src)
    ensures var us := QueryBelow(k, src, src.serial);
      (exists j :: 0 <= j < |us| && !Numeral(us[j].svgid)) <==>
      (exists id :: id in src.rows && Labelled(k, src, id) && !Numeral(Elevation(LabelOf(k, src, id))))
  {
    var us := QueryBelow(k, src, src.serial);
    if j :| 0 <= j < |us| && !Numeral(us[j].svgid) {
      RowElevation(k, src, j);
    }
    if id :| id in src.rows && Labelled(k, src, id) && !Numeral(Elevation(LabelOf(k, src, id))) {
      LabelRow(k, src, id);
      var j :| 0 <= j < |us| && us[j].id == id;
      RowElevation(k, src, j);
    }
  }

  /** `create_peaks`: the query over `xyz_pts`, then one UPDATE of
      `<prefix>_pts` per result row. None when an UPDATE is malformed; the
      transaction is then never committed and nothing changes. */
  method LabelPeaks(k: Kernel, src: Pts, dst: Pts) returns (r: Option<Pts>)
    requires Valid(src)
    ensures r.None? <==> exists id :: id in src.rows && Labelled(k, src, id) && !Numeral(Elevation(LabelOf(k, src, id)))
    ensures r.Some? ==> r.value.rows.Keys == dst.rows.Keys
    ensures r.Some? ==> forall id :: id in dst.rows ==> r.value.rows[id] == Expected(k, src, dst, id)
  {
    var us := QueryBelow(k, src, src.serial);
    var ids := LabelledBelow(k, src, src.serial);
    assert forall j :: 0 <= j < |ids| ==> ids[j] in ids;
    var m := ApplyUpdates(dst.rows, us);
    QueryMalformed(k, src);
    if m.None? {
      return None;
    }
    ResultsExpected(k, src, dst, m.value);
    r := Some(Pts(m.value, dst.serial));
  }
}

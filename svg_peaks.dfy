/** svg_replace.py: the peak-label extractor. The SVG is read line by line;
    a line holding a glyph `<path>` is rewritten to the character the glyph
    draws, consecutive rewritten lines form a run, and when a line is not
    rewritten the run is written out either as one `<circle>` carrying the
    run's text as a `PEAKN/` name or, if the text is short, as the original
    lines. The output file is modelled as its content, a string. */
module SvgPeaks {
  import opened Text
  import opened Optional

  /** The two regular expressions of `replace`:
      `sub(line, key, repl)` is `re.sub` of the glyph-path pattern built
      from `key` (a `<path class="cls-1201" d="M..,..` + key + `.."/>`)
      by `repl`; `glyph(line, key)` says that pattern occurs in `line`;
      `coords(line)` is the two M coordinates `re.match` takes from a
      `d="M<x>,<y>` attribute, or None when it finds none. */
  datatype Regex = Regex(
    sub: (string, string, string) -> string,
    glyph: (string, string) -> bool,
    coords: string -> Option<(string, string)>)

  /** `re.sub` leaves a line without an occurrence of the pattern alone. */
  ghost predicate SubLaw(m: Regex) {
    forall line, key, repl {:trigger m.sub(line, key, repl)} :: !m.glyph(line, key) ==> m.sub(line, key, repl) == line
  }

  /** `location`: `[0, 0]` until the first glyph of a run sets it. */
  datatype Location = Initial | At(x: string, y: string)

  /** The apostrophe glyph, tried before the table. */
  const Apostrophe: (string, string) := ("v-.51s.", "'")

  /** The `LETTERS` dictionary in its insertion order: path fragment and the
      character it draws. */
  const Letters: seq<(string, string)> := [
    ("c0-.6.0", "0"), ("h-.33", "1"), ("v.42", "2"), ("l.32-.0", "3"),
    ("v-.86s-", "4"), ("l.34-.0", "5"), ("l-.32.0", "6"), ("v-.42[sh]1.7", "7"),
    ("c-.13-.0", "8"), ("l.31-.04c", "9"), ("l1.0", "A"),
    ("v-3.58s1,0,1,0c.2,0,.36.04.48.1", "B"), ("l.35.12", "C"),
    ("v-3.58s.92,0,.92,0c.2", "D"), ("v-3.58s1.92,0,1.92,0", "E"),
    ("v-3.58s1.79", "F"), ("v-.42[hs]1.1", "G"), ("v-3.58s.36,0,.36,0v1.47s", "H"),
    ("v-3.58s.36,0,.36,0v3.58s", "I"), ("v-3.58h.35v3.58h-.35Z", "I"),
    ("l.31-.06c0", "J"), ("v-3.58s.36,0,.36,0v1.7", "K"), ("v-3.58h.35v1", "K"),
    ("v-3.58s.36,0,.36,0v3.16s", "L"), ("v-3.58s.54", "M"), ("v-3.58s.37", "N"),
    ("v-3.58h.36", "N"), ("c0-.61.", "O"), ("v-3.58s1.01", "P"), ("c.16.15", "Q"),
    ("v-3.58[hs]1.1", "R"), ("l.33-.0", "S"), ("v-3.16", "T"), ("h.35", "U"),
    ("l-1.0", "V"), ("l-.69-3", "W"), ("v-1.52s", "Y"), ("v-.44s1", "Z")]

  /** Every glyph stands for exactly one character, the apostrophe and the
      digits and capitals of the table. */
  lemma GlyphsAreCharacters()
    ensures |Apostrophe.1| == 1
    ensures forall i :: 0 <= i < |Letters| ==> |Letters[i].1| == 1 && (IsDigit(Letters[i].1[0]) || IsUpper(Letters[i].1[0]))
  {
  }

  // ---------------------------------------------------------------------
  // replace

  /** `replace(line, repl, strg, location)`; None when the coordinate match
      fails where its groups are read (the script stops there). */
  function Replace(m: Regex, line: string, repl: string, strg: string, loc: Location): Option<(string, Location)> {
    var ret := m.sub(line, strg, repl);
    if ret == line then Some((ret, loc))
    else if loc.At? then Some((ret, loc))
    else match m.coords(line)
      case None => None
      case Some(c) => Some((ret, At(c.0, c.1)))
  }

  /** Without a glyph the line and the location come back unchanged; a
      location once set is kept; a rewrite of a fresh run sets it to the
      line's M coordinates. */
  lemma ReplaceSpec(m: Regex, line: string, repl: string, strg: string, loc: Location)
    requires SubLaw(m)
    ensures var r := Replace(m, line, repl, strg, loc);
      && (!m.glyph(line, strg) ==> r == Some((line, loc)))
      && (r.Some? && loc.At? ==> r.value.1 == loc)
      && (r.Some? && r.value.0 != line ==> r.value.1.At?)
      && (r.Some? && r.value.0 != line && loc.Initial? ==>
            m.coords(line).Some? && r.value.1 == At(m.coords(line).value.0, m.coords(line).value.1))
      && (r.None? <==> m.sub(line, strg, repl) != line && loc.Initial? && m.coords(line).None?)
  {
  }

  /** The apostrophe, then the first `n` keys of the table, each applied to
      the result of the one before. */
  function ReplaceAll(m: Regex, line: string, loc: Location, n: nat): Option<(string, Location)>
    requires n <= |Letters|
    decreases n
  {
    if n == 0 then Replace(m, line, Apostrophe.1, Apostrophe.0, loc)
    else match ReplaceAll(m, line, loc, n - 1)
      case None => None
      case Some(p) => Replace(m, p.0, Letters[n - 1].1, Letters[n - 1].0, p.1)
  }

  /** A set location survives the whole chain, and a rewritten line always
      comes with a set location. */
  lemma {:induction false} ReplaceAllLocation(m: Regex, line: string, loc: Location, n: nat)
    requires n <= |Letters|
    ensures var r := ReplaceAll(m, line, loc, n);
      && (r.Some? && loc.At? ==> r.value.1 == loc)
      && (r.Some? && r.value.0 != line ==> r.value.1.At?)
    decreases n
  {
    if n > 0 {
      ReplaceAllLocation(m, line, loc, n - 1);
    }
  }

  /** The text of the chain: the apostrophe, then the first `n` keys of the
      table, substituted in turn, whatever the location. */
  function Rewritten(m: Regex, line: string, n: nat): string
    requires n <= |Letters|
    decreases n
  {
    if n == 0 then m.sub(line, Apostrophe.0, Apostrophe.1)
    else m.sub(Rewritten(m, line, n - 1), Letters[n - 1].0, Letters[n - 1].1)
  }

  /** The line the whole chain produces. */
  function Rewrite(m: Regex, line: string): string {
    Rewritten(m, line, |Letters|)
  }

  /** With a set location the chain never stops, keeps the location and
      produces the substituted text. */
  lemma {:induction false} ReplaceAllAt(m: Regex, line: string, x: string, y: string, n: nat)
    requires n <= |Letters|
    ensures ReplaceAll(m, line, At(x, y), n) == Some((Rewritten(m, line, n), At(x, y)))
    decreases n
  {
    if n > 0 {
      ReplaceAllAt(m, line, x, y, n - 1);
    }
  }

  /** From a fresh location the chain produces the substituted text. It
      stops exactly when it rewrites a line whose M coordinates cannot be
      read, and a rewrite takes its location from the M coordinates of the
      line as read, before any substitution. */
  lemma {:induction false} ReplaceAllFresh(m: Regex, line: string, n: nat)
    requires n <= |Letters|
    ensures var r := ReplaceAll(m, line, Initial, n);
      && (m.coords(line).Some? ==> r.Some?)
      && (r.Some? ==> r.value.0 == Rewritten(m, line, n))
      && (r.Some? && r.value.1 == Initial ==> r.value.0 == line)
      && (r.Some? && r.value.1 != Initial ==>
            m.coords(line).Some? && r.value.1 == At(m.coords(line).value.0, m.coords(line).value.1))
    decreases n
  {
    if n > 0 {
      ReplaceAllFresh(m, line, n - 1);
    }
  }

  /** Once the chain has stopped it stays stopped. */
  lemma {:induction false} ReplaceAllStops(m: Regex, line: string, loc: Location, n: nat, n': nat)
    requires n <= n' <= |Letters| && ReplaceAll(m, line, loc, n).None?
    ensures ReplaceAll(m, line, loc, n').None?
    decreases n'
  {
    if n < n' {
      ReplaceAllStops(m, line, loc, n, n' - 1);
    }
  }

  /** When the coordinate match never fails, neither does the chain. */
  lemma {:induction false} ReplaceAllSome(m: Regex, line: string, loc: Location, n: nat)
    requires n <= |Letters| && forall s :: m.coords(s).Some?
    ensures ReplaceAll(m, line, loc, n).Some?
    decreases n
  {
    if n > 0 {
      ReplaceAllSome(m, line, loc, n - 1);
    } else {
      assert m.coords(line).Some?;
    }
  }

  /** A line without any glyph of the chain comes back unchanged. */
  lemma {:induction false} ReplaceAllNoGlyph(m: Regex, line: string, loc: Location, n: nat)
    requires SubLaw(m) && n <= |Letters|
    requires !m.glyph(line, Apostrophe.0) && forall i :: 0 <= i < n ==> !m.glyph(line, Letters[i].0)
    ensures ReplaceAll(m, line, loc, n) == Some((line, loc))
    decreases n
  {
    if n > 0 {
      ReplaceAllNoGlyph(m, line, loc, n - 1);
    }
  }

  /** `replace` with the apostrophe, then the `for key in LETTERS` loop. */
  method RewriteLine(m: Regex, line0: string, loc0: Location) returns (r: Option<(string, Location)>)
    ensures r == ReplaceAll(m, line0, loc0, |Letters|)
  {
    r := Replace(m, line0, Apostrophe.1, Apostrophe.0, loc0);
    var i := 0;
    while i < |Letters|
      invariant 0 <= i <= |Letters| && r == ReplaceAll(m, line0, loc0, i)
    {
      if r.None? {
        ReplaceAllStops(m, line0, loc0, i, |Letters|);
        return;
      }
      var key := Letters[i];
      r := Replace(m, r.value.0, key.1, key.0, r.value.1);
      i := i + 1;
    }
  }

  // ---------------------------------------------------------------------
  // peaks

  /** The loop state: `bline` (the raw lines of the run), `oline` (its
      rewritten text) and `location`. */
  datatype State = State(bline: string, oline: string, loc: Location)

  const Fresh := State("", "", Initial)

  /** The output so far, and whether the script is still running or has
      stopped with an exception. */
  datatype Outcome = Running(st: State, out: string) | Stopped(out: string)

  /** The circle line a long run becomes. */
  function Circle(x: string, y: string, text: string): string {
    "<circle class=\"\" cx=\"" + x + "\" cy=\"" + y + "\" data-name=\"PEAKN/" + text + "\"/>"
  }

  /** One iteration of `for line0 in ...`. A long run whose location was
      never set would make the string concatenation fail; that stops the
      script too. */
  function Step(m: Regex, o: Outcome, line0: string): Outcome {
    match o
    case Stopped(_) => o
    case Running(st, out) =>
      var bline := st.bline + line0;
      match ReplaceAll(m, line0, st.loc, |Letters|)
      case None => Stopped(out)
      case Some(p) =>
        var nline := p.0;
        if nline != line0 then Running(State(bline, st.oline + RStrip(nline), p.1), out)
        else if |st.oline| > 5 then
          (match p.1
           case Initial => Stopped(out)
           case At(x, y) => Running(Fresh, out + Circle(x, y, st.oline) + "\n" + nline))
        else Running(Fresh, out + bline)
  }

  /** The loop over the first `|lines|` lines of the input. */
  function Peaks(m: Regex, lines: seq<string>): Outcome
    decreases |lines|
  {
    if lines == [] then Running(Fresh, "")
    else Step(m, Peaks(m, lines[..|lines| - 1]), lines[|lines| - 1])
  }

  lemma PeaksSnoc(m: Regex, lines: seq<string>, line: string)
    ensures Peaks(m, lines + [line]) == Step(m, Peaks(m, lines), line)
  {
    assert (lines + [line])[..|lines|] == lines;
  }

  /** Between lines the pending text is empty or the location is set. */
  ghost predicate Settled(o: Outcome) {
    o.Running? ==> (o.st.oline != "" ==> o.st.loc.At?) && (o.st.loc.Initial? ==> o.st.oline == "")
  }

  lemma {:induction false} PeaksSettled(m: Regex, lines: seq<string>)
    ensures Settled(Peaks(m, lines))
    decreases |lines|
  {
    if lines != [] {
      var n := |lines| - 1;
      PeaksSettled(m, lines[..n]);
      var o := Peaks(m, lines[..n]);
      if o.Running? {
        ReplaceAllLocation(m, lines[n], o.st.loc, |Letters|);
      }
    }
  }

  /** If every rewritten line carries M coordinates the regex can read, the
      script never stops with an exception. */
  lemma {:induction false} PeaksRuns(m: Regex, lines: seq<string>)
    requires forall s :: m.coords(s).Some?
    ensures Peaks(m, lines).Running?
    decreases |lines|
  {
    if lines != [] {
      var n := |lines| - 1;
      PeaksRuns(m, lines[..n]);
      PeaksSettled(m, lines[..n]);
      var o := Peaks(m, lines[..n]);
      ReplaceAllLocation(m, lines[n], o.st.loc, |Letters|);
      ReplaceAllSome(m, lines[n], o.st.loc, |Letters|);
    }
  }

  /** After the script has stopped nothing more is written. */
  lemma {:induction false} PeaksStopped(m: Regex, lines: seq<string>, i: nat)
    requires i <= |lines| && Peaks(m, lines[..i]).Stopped?
    ensures Peaks(m, lines) == Peaks(m, lines[..i])
    decreases |lines|
  {
    if i < |lines| {
      var n := |lines| - 1;
      assert lines[..n][..i] == lines[..i];
      PeaksStopped(m, lines[..n], i);
    } else {
      assert lines[..i] == lines;
    }
  }

  /** A rewritten line writes nothing: it only joins the pending run, so a
      run still pending when the input ends is never written. */
  lemma RewrittenWritesNothing(m: Regex, lines: seq<string>, line: string)
    requires Peaks(m, lines).Running?
    requires var p := ReplaceAll(m, line, Peaks(m, lines).st.loc, |Letters|); p.Some? && p.value.0 != line
    ensures var o := Peaks(m, lines); var o' := Peaks(m, lines + [line]);
      o'.Running? && o'.out == o.out && o'.st.bline == o.st.bline + line
  {
    PeaksSnoc(m, lines, line);
  }

  /** Pass-through: outside a run a line that is not rewritten is copied to
      the output unchanged, and the state stays fresh. */
  lemma PassThrough(m: Regex, lines: seq<string>, line: string)
    requires SubLaw(m) && Peaks(m, lines) == Running(Fresh, Peaks(m, lines).out)
    requires !m.glyph(line, Apostrophe.0) && forall i :: 0 <= i < |Letters| ==> !m.glyph(line, Letters[i].0)
    ensures Peaks(m, lines + [line]) == Running(Fresh, Peaks(m, lines).out + line)
  {
    var o := Peaks(m, lines);
    ReplaceAllNoGlyph(m, line, Initial, |Letters|);
    PeaksSnoc(m, lines, line);
    StepPlain(m, o.out, line);
  }

  /** A fresh state meets a line the chain leaves alone. */
  lemma StepPlain(m: Regex, out: string, line: string)
    requires ReplaceAll(m, line, Initial, |Letters|) == Some((line, Initial))
    ensures Step(m, Running(Fresh, out), line) == Running(Fresh, out + line)
  {
    assert Fresh.bline + line == line;
  }

  /** The raw lines of a run, joined as `bline` collects them. */
  function Joined(run: seq<string>): string
    decreases |run|
  {
    if run == [] then "" else Joined(run[..|run| - 1]) + run[|run| - 1]
  }

  /** The text of a run, joined as `oline` collects it: each line rewritten
      and stripped of trailing whitespace. */
  function RunText(m: Regex, run: seq<string>): string
    decreases |run|
  {
    if run == [] then "" else RunText(m, run[..|run| - 1]) + RStrip(Rewrite(m, run[|run| - 1]))
  }

  /** Every line of the run is changed by the chain. */
  ghost predicate AllRewritten(m: Regex, run: seq<string>) {
    forall i :: 0 <= i < |run| ==> Rewrite(m, run[i]) != run[i]
  }

  /** A run that starts on a fresh state holds, between lines, its raw lines,
      its text and the M coordinates of its first line. */
  lemma {:induction false} RunState(m: Regex, lines: seq<string>, out: string, run: seq<string>)
    requires Peaks(m, lines) == Running(Fresh, out)
    requires run != [] && AllRewritten(m, run) && m.coords(run[0]).Some?
    ensures Peaks(m, lines + run) ==
      Running(State(Joined(run), RunText(m, run), At(m.coords(run[0]).value.0, m.coords(run[0]).value.1)), out)
    decreases |run|
  {
    var n := |run| - 1;
    var pre := run[..n];
    var c := m.coords(run[0]).value;
    assert lines + run == (lines + pre) + [run[n]];
    assert Rewrite(m, run[n]) != run[n];
    if n == 0 {
      assert lines + pre == lines;
      RunFirst(m, lines, out, run[0]);
    } else {
      assert pre[0] == run[0];
      assert AllRewritten(m, pre) by {
        forall i | 0 <= i < |pre| ensures Rewrite(m, pre[i]) != pre[i] {
          assert pre[i] == run[i];
        }
      }
      RunState(m, lines, out, pre);
      var st := State(Joined(pre), RunText(m, pre), At(c.0, c.1));
      RunNext(m, lines + pre, st, out, run[n]);
      RunSnoc(m, run, st);
    }
  }

  /** The raw lines and the text of a run grow by its last line. */
  lemma RunSnoc(m: Regex, run: seq<string>, st: State)
    requires run != [] && st.bline == Joined(run[..|run| - 1]) && st.oline == RunText(m, run[..|run| - 1])
    ensures st.bline + run[|run| - 1] == Joined(run)
    ensures st.oline + RStrip(Rewrite(m, run[|run| - 1])) == RunText(m, run)
  {
  }

  /** The first line of a run, met in a fresh state. */
  lemma RunFirst(m: Regex, lines: seq<string>, out: string, line: string)
    requires Peaks(m, lines) == Running(Fresh, out)
    requires Rewrite(m, line) != line && m.coords(line).Some?
    ensures Peaks(m, lines + [line]) ==
      Running(State(line, RStrip(Rewrite(m, line)), At(m.coords(line).value.0, m.coords(line).value.1)), out)
  {
    PeaksSnoc(m, lines, line);
    ReplaceAllFresh(m, line, |Letters|);
    assert Fresh.bline + line == line;
    assert Fresh.oline + RStrip(Rewrite(m, line)) == RStrip(Rewrite(m, line));
  }

  /** A later line of a run, met in a state with a set location. */
  lemma RunNext(m: Regex, lines: seq<string>, st: State, out: string, line: string)
    requires Peaks(m, lines) == Running(st, out)
    requires st.loc.At? && Rewrite(m, line) != line
    ensures Peaks(m, lines + [line]) ==
      Running(State(st.bline + line, st.oline + RStrip(Rewrite(m, line)), st.loc), out)
  {
    PeaksSnoc(m, lines, line);
    ReplaceAllAt(m, line, st.loc.x, st.loc.y, |Letters|);
  }

  /** A run whose first line has no readable M coordinates stops the script
      at that line. */
  lemma RunUnlocated(m: Regex, lines: seq<string>, out: string, run: seq<string>, e: string)
    requires Peaks(m, lines) == Running(Fresh, out)
    requires run != [] && AllRewritten(m, run) && m.coords(run[0]).None?
    ensures Peaks(m, lines + run + [e]) == Stopped(out)
  {
    var all := lines + run + [e];
    assert all[..|lines| + 1] == lines + [run[0]];
    assert all[..|lines|] == lines;
    PeaksSnoc(m, lines, run[0]);
    ReplaceAllFresh(m, run[0], |Letters|);
    assert Rewrite(m, run[0]) != run[0];
    PeaksStopped(m, all, |lines| + 1);
  }

  /** A run of rewritten lines, started on a fresh state and ended by a line
      the chain leaves alone: when its text is longer than 5 characters it
      is written as one circle line at the M coordinates of its first line,
      carrying the run's text, followed by the ending line, and its raw lines
      are dropped. */
  lemma LongRun(m: Regex, lines: seq<string>, out: string, run: seq<string>, e: string)
    requires Peaks(m, lines) == Running(Fresh, out)
    requires run != [] && AllRewritten(m, run) && m.coords(run[0]).Some?
    requires Rewrite(m, e) == e && |RunText(m, run)| > 5
    ensures var c := m.coords(run[0]).value;
      Peaks(m, lines + run + [e]) == Running(Fresh, out + Circle(c.0, c.1, RunText(m, run)) + "\n" + e)
  {
    var c := m.coords(run[0]).value;
    RunState(m, lines, out, run);
    PeaksSnoc(m, lines + run, e);
    ReplaceAllAt(m, e, c.0, c.1, |Letters|);
    RunEnd(m, State(Joined(run), RunText(m, run), At(c.0, c.1)), out, e);
  }

  /** A run whose text has at most 5 characters is replayed verbatim: its raw
      lines, then the line that ended it. */
  lemma ShortRun(m: Regex, lines: seq<string>, out: string, run: seq<string>, e: string)
    requires Peaks(m, lines) == Running(Fresh, out)
    requires run != [] && AllRewritten(m, run) && m.coords(run[0]).Some?
    requires Rewrite(m, e) == e && |RunText(m, run)| <= 5
    ensures Peaks(m, lines + run + [e]) == Running(Fresh, out + Joined(run) + e)
  {
    var c := m.coords(run[0]).value;
    RunState(m, lines, out, run);
    PeaksSnoc(m, lines + run, e);
    ReplaceAllAt(m, e, c.0, c.1, |Letters|);
    RunEnd(m, State(Joined(run), RunText(m, run), At(c.0, c.1)), out, e);
  }

  /** The line ending a run, met in a state with a set location. */
  lemma RunEnd(m: Regex, st: State, out: string, e: string)
    requires st.loc.At? && ReplaceAll(m, e, st.loc, |Letters|) == Some((e, st.loc))
    ensures Step(m, Running(st, out), e) ==
      if |st.oline| > 5 then Running(Fresh, out + Circle(st.loc.x, st.loc.y, st.oline) + "\n" + e)
      else Running(Fresh, out + st.bline + e)
  {
  }

  /** `peaks`: the loop over the input lines with its `continue`, the
      written output and the resets. */
  method PeaksLoop(m: Regex, lines: seq<string>) returns (out: string, stopped: bool)
    ensures var o := Peaks(m, lines); out == o.out && stopped == o.Stopped?
  {
    var location := Initial;
    var oline := "";
    var bline := "";
    out := "";
    var i := 0;
    while i < |lines|
      invariant 0 <= i <= |lines|
      invariant Peaks(m, lines[..i]) == Running(State(bline, oline, location), out)
    {
      var line0 := lines[i];
      PeaksSnoc(m, lines[..i], line0);
      assert lines[..i + 1] == lines[..i] + [line0];
      bline := bline + line0;
      var r := RewriteLine(m, line0, location);
      if r.None? {
        PeaksStopped(m, lines, i + 1);
        return out, true;
      }
      var nline := r.value.0;
      location := r.value.1;
      i := i + 1;
      if nline != line0 {
        oline := oline + RStrip(nline);
        continue;
      }
      if |oline| > 5 {
        if location.Initial? {
          PeaksStopped(m, lines, i);
          return out, true;
        }
        out := out + Circle(location.x, location.y, oline) + "\n" + nline;
      } else {
        out := out + bline;
      }
      bline := "";
      oline := "";
      location := Initial;
    }
    assert lines[..|lines|] == lines;
    stopped := false;
  }
}

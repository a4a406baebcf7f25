# harn-atlas-tools: control logic of the atlas scripts

The harn-atlas-tools scripts turn the layers of a drawn map into a PostGIS table of
lines (`<prefix>_lines`), polygons (`<prefix>_polys`) and points (`<prefix>_pts`).
This project models the five scripts whose control logic decides what ends up in
those tables:

- **geo_rivers.py**, the drainage level assembler. Area rivers are thinned to
  candidate streams (a medial axis). Streams whose end reaches the shore are
  trimmed and snapped onto it as level-0 river mouths. The mouths of each level are
  the boundary of the next one. Lakes cut the mouths that flow into them and start
  the next level on their own outline.
- **geo_coast.py**, the coastline stitcher and validator. Every coastline row is
  reduced to one simple line. Open coastlines are bridged to their nearest
  coastline neighbour and merged. Isles are added, outermost closed coasts become
  land (type `0`), lakes are split off and named, and land inside the `main` coast
  is removed.
- **geo_vegetation.py**, the vegetation normalisation. Each vegetation type is
  reduced by the types after it, the pieces are stored as temporary `VEGTMP/`
  polygons, and these are cut to the land (shoal/reef: to the sea) as `VEG/` rows.
- **svg_replace.py** (`peaks`), the peak-label extractor. It works on the SVG
  line by line. Glyph paths become characters, and a run of glyphs becomes a
  `<circle>` carrying the run's text as a `PEAKN/` label.
- **geo_pts.py** (`create_peaks`), the peak-label decoder. Each PEAK point takes
  its nearest `PEAKN/` label. The label is decoded into a title-cased name and an
  elevation, and the name is written as a quoted SQL literal.

## How the model is built

### Store and kernel
- **The row table.** `<prefix>_lines` is a value `Store.Table`: a map from id to
  `Segment` (name, type, geometry, style) and the next value of the `serial`
  sequence. `Store.Valid` says every id in use is below `serial`. INSERT, DELETE
  and UPDATE are the functions `Store.Insert`, `Store.Delete` and `Store.SetGeo`.
  Each script's methods take a table and return the new one. Every loop of the
  scripts is a method with a `while` loop, proved equal to a recursive
  specification function. The properties are lemmas about those functions.
- **The geometry kernel.** In every module the PostGIS/SFCGAL calls are fields of
  a `Kernel` datatype: distances below EPS, intersection, closest point, cover,
  line merge, difference, medial axis and buffers. The facts a proof needs from
  them are named predicates in `requires` clauses: `Coast.MergeLaw`,
  `Coast.SortedMerge`, `Vegetation.DumpLaw` and `SvgPeaks.SubLaw`.
- **Vegetation areas.** Areas are point sets (`set<Point>`), so union,
  difference and intersection are exact.
- **The SVG extractor.** The input file is a sequence of lines and the output
  file is a string. The two regular expressions of `replace` are a `Regex`
  datatype.
- **The peak decoder.** The points tables are maps from id to `Pt`.

### Where the model reads the source a particular way
- **Queries without ORDER BY** on `<prefix>_lines` are read in ascending id order.
  geo_vegetation.py's `<prefix>_polys` is a sequence of rows in insertion order, and its scans
  without ORDER BY (the restricting INSERTs, geo_vegetation.py:100-115) read it in that order.
- **SQL NULL** in a text column (`name`, `type`, `style`) is the empty string. Where a
  comparison with NULL decides a row, the model follows SQL: `Coast.InsideMain` keeps a row
  with a NULL name, because `tl.name <> 'main'` is not true for it, and `Rivers.IsCandidate`
  rejects a row with a NULL type, because `type NOT LIKE 'River/%'` is not true for it.
- **`ORDER BY ... LIMIT 1` ties** go to the row read first, i.e. the lowest id
  (or the first dumped piece).
- **The geo_pts.py decode (geo_pts.py:13-16):** the outer SELECT decodes a
  column `name`, while the subquery only exposes the prefix-stripped label as
  `t2name`. The model decodes the prefix-stripped label.
- **The query's `ORDER BY dist DESC` (geo_pts.py:21)** only orders updates of
  distinct ids. The model applies them in id order, which leaves the same table.
- **The two points tables in geo_pts.py.** The query reads `xyz_pts`, which is
  `src` in the model. The updates go to `<prefix>_pts`, which is `dst`.
- **The type geo_vegetation.py writes (geo_vegetation.py:100-115):**
  `'VEG/' || substring(type from 7)` of a `VEGTMP/<type>` row is `VEG//<type>`,
  with two slashes, because the 7th character is the slash. The model writes it as
  the source does (`Vegetation.VegKindOfTmp`).
- **make_axis's INSERT (geo_rivers.py:24-27)** writes `ST_Union(ARRAY[axis])`, where `axis` is one
  fetched row holding one merged line. The model takes the union of that single line to be the
  line itself.
- **The tmp-lake type.** geo_coast.py writes lake rows with type
  `/COASTLINE/tmp-lake`, with a leading slash (geo_coast.py:81, 92). geo_rivers.py
  looks for `COASTLINE/tmp-lake` without one (geo_rivers.py:161-163). Each script
  is modelled with its own literal.

## Model

| member | source | states |
|---|---|---|
| Store.Insert | geo_coast.py:88-95 | a row is inserted under the id `nextval('serial')`, which was unused; the sequence advances by one and no other row changes |
| Store.Delete | geo_rivers.py:123-124 | DELETE by id removes exactly that row and leaves every other row as it was |
| Store.SetGeo | geo_coast.py:113-116 | UPDATE of `wkb_geometry` by id changes the geometry of that row only; keys and other rows stay |
| Store.Select | geo_coast.py:156-158 | a `SELECT id ... WHERE p ORDER BY id` returns exactly the ids of rows satisfying `p`, strictly ascending |
| Store.IdsBelow | geo_coast.py:156-158 | the ids below `n` of rows satisfying `p`, each once and ascending |
| Geo.Vertex.Other | geo_rivers.py:31 | `other_vertex` is the opposite endpoint |
| Geo.CloseRing | geo_rivers.py:139-140 | ST_AddPoint(g, ST_StartPoint(g)) yields a closed line one point longer that starts with `g` |
| Geo.Keep | geo_rivers.py:107-110 | keeping `m` points counted from the end opposite to `v` gives a line of exactly `m` points |
| Geo.KeepKeep | geo_rivers.py:91-110 | trimming twice at the same end is trimming once to the shorter length |
| Geo.KeepAll | geo_rivers.py:91-110 | keeping every point is the identity |
| Geo.KeepOtherEnd | geo_rivers.py:107-110 | trimming at the `v` end never moves the opposite endpoint |
| Geo.RemoveEnd | geo_rivers.py:107-110 | ST_RemovePoint at index 0 (`start`) or the last index (`end`) drops one point at that end only |
| Geo.SetEnd | geo_rivers.py:121-122 | ST_SetPoint at index 0 or -1 puts `p` at that endpoint and leaves every other point in place |
| Geo.DropRepeats | geo_rivers.py:121 | keeps the first and last point and exactly the points of the line, none lost and none added; no two neighbours are equal afterwards |
| Geo.ChangesFrom | geo_rivers.py:121 | the indices from `i` on whose point differs from its predecessor, each once and ascending |
| Geo.DropRepeatsKeeps | geo_rivers.py:121 | ST_RemoveRepeatedPoints without tolerance keeps the first point and exactly the points that differ from their predecessor, in their order |
| Geo.RemoveRepeatedPoints | geo_rivers.py:121 | ST_RemoveRepeatedPoints keeps both endpoints, the same set of points, and leaves a line of at least two points with at least two |
| Text.ContainsAt | geo_coast.py:144 | an occurrence of `sub` at some index makes `s LIKE '%sub%'` hold |
| Text.LikeLiteral | geo_vegetation.py:57-73 | a LIKE pattern without `_` matches exactly where the text occurs literally |
| Text.SubstringFrom | geo_pts.py:16 | `substring(s from n)` is what follows the first `n-1` characters, or empty when `s` is shorter |
| Text.DigitChar | geo_rivers.py:40 | the character of digit `d`: a digit whose code is `d` above that of `0` |
| Text.NatToString | geo_rivers.py:40 | the f-string rendering of a level is a non-empty string of digits |
| Text.NatToStringValue | geo_rivers.py:40 | the rendering denotes the level in decimal and has no leading zero |
| Text.NatToStringInjective | geo_rivers.py:40 | different levels give different strings, so `River/{level}/...` types of different levels differ |
| Text.LowerChar | geo_pts.py:13 | `lower` maps a capital to its small letter (code + 32) and leaves every other character alone |
| Text.Lower | geo_pts.py:13 | `lower` works character by character and keeps the length |
| Text.RTrim | geo_pts.py:13 | `rtrim(s, chars)` is the longest prefix of `s` whose removed tail consists of `chars` only and that does not end in one |
| Text.LTrim | geo_pts.py:14 | `ltrim(s, chars)` is the suffix left after dropping the longest head made of `chars`; it does not start with one |
| Text.RTrimAppend | geo_pts.py:13 | trimming a digit tail off a text that does not end in a digit gives back the text |
| Text.LTrimAppend | geo_pts.py:14 | trimming a capital head off a text that does not start with a capital gives back the text |
| Text.RStrip | svg_replace.py:73 | `rstrip()` removes trailing whitespace only (the characters for which `str.isspace()` holds), leaving a prefix that does not end in whitespace, and everything removed is whitespace |
| Rivers.Candidates | geo_rivers.py:80-85 | exactly the rows named `candidate` with a non-NULL type not matching `River/%`, whose chosen endpoint is within EPS0 of the boundary, ascending |
| Rivers.Trim | geo_rivers.py:91-110 | the line minus a run of points at the chosen end only; at least 2 points; the first line in the sequence of removals at which the line has 2 points or no longer intersects the boundary |
| Rivers.Mouth | geo_rivers.py:111-122 | the replacement row is named `-` (so not a candidate), typed `River/{level}/Mouth:{vertex}`, its chosen endpoint the boundary point closest to the trimmed end, its other endpoint the original one |
| Rivers.MouthOfNotCandidate | geo_rivers.py:118-122 | no mouth row is ever a candidate: mouths never re-enter the candidate set |
| Rivers.Step | geo_rivers.py:111-124 | one candidate is replaced by its row: the table stays well-formed (its content is given by PassNew, PassRemoves and PassKeeps) |
| Rivers.Pass | geo_rivers.py:88-124 | processing the candidates draws at most one id per candidate and keeps the table well-formed |
| Rivers.RiverResult | geo_rivers.py:72-125 | the table handle_river leaves is well-formed; RiverResultCandidates states its content |
| Rivers.PassKeeps | geo_rivers.py:88-124 | a row the pass does not process is unchanged |
| Rivers.PassSerial | geo_rivers.py:118-122 | every processed candidate draws exactly one new id |
| Rivers.PassRemoves | geo_rivers.py:123-124 | every processed candidate is deleted |
| Rivers.PassNew | geo_rivers.py:117-124 | the i-th processed candidate is replaced by exactly one row, held under the i-th id drawn, made from its line |
| Rivers.PassDomain | geo_rivers.py:88-124 | a pass adds no row other than the replacement rows |
| Rivers.PassCandidates | geo_rivers.py:80-124 | after a pass the candidates are those before it minus the processed ones; the count drops by exactly the number processed |
| Rivers.RiverResultCandidates | geo_rivers.py:77-125 | with a `None` boundary handle_river returns 0 and changes nothing; otherwise exactly the candidates reaching the boundary leave the candidate set and their number is returned |
| Rivers.SeenAfterPass | geo_rivers.py:80-124 | a candidate seen after a pass existed before it, was not processed by it and is unchanged |
| Rivers.StartThenEnd | geo_rivers.py:165-166 | the `end` pass after the `start` pass on one boundary never sees a row the `start` pass consumed, and sees its rows as they were before |
| Rivers.TrimEnd | geo_rivers.py:91-110 | the `while True` loop computes Trim |
| Rivers.MouthRow | geo_rivers.py:111-122 | the inserted row is Mouth of the trimmed line |
| Rivers.HandleCandidate | geo_rivers.py:111-124 | one candidate: insert its mouth row, then delete it |
| Rivers.HandleRiver | geo_rivers.py:72-125 | handle_river leaves RiverResult and returns the number of candidates selected |
| Rivers.PassSnoc | geo_rivers.py:88 | processing one more candidate extends the pass by one step |
| Rivers.Inflows | geo_rivers.py:38-42 | exactly the level-`level` mouths oriented at the other vertex whose `vertex` endpoint is within EPS0 of the lake polygon, ascending |
| Rivers.Longest | geo_rivers.py:54-55 | `ORDER BY ST_Length DESC LIMIT 1`: a piece at least as long as every other, and strictly longer than each piece before it |
| Rivers.CutGeo | geo_rivers.py:47-60 | a cut mouth keeps a longest remaining piece; when no piece remains it keeps its line |
| Rivers.Cut | geo_rivers.py:47-60 | one mouth's cut keeps the table well-formed (content in CutAllRows) |
| Rivers.CutAll | geo_rivers.py:44-60 | cutting all inflowing mouths keeps the table well-formed (content in CutAllRows) |
| Rivers.CutAllRows | geo_rivers.py:44-60 | cutting changes the geometry of exactly the listed mouths, each to what the lake leaves of it; keys, the sequence and all other rows stay |
| Rivers.CutAllCandidates | geo_rivers.py:44-60 | cutting leaves the candidate set unchanged |
| Rivers.LakeStep | geo_rivers.py:38-66 | one lake: the cuts, then, if any mouth matched, handle_river at level+1 on the lake for both vertices; the table stays well-formed |
| Rivers.Repeat | geo_rivers.py:62-63 | `n` copies of the lake, one per matched mouth |
| Rivers.LakeStepOfValid | geo_rivers.py:35-66 | the lake step keeps every table well-formed |
| Rivers.LakesFold | geo_rivers.py:34-66 | the `for lake in lakes` loop for any well-formed lake step keeps the table well-formed |
| Rivers.LakesPass | geo_rivers.py:34-66 | the loop of handle_lakes keeps the table well-formed |
| Rivers.RemoveFirst | geo_rivers.py:69-70 | `lakes.remove(x)` removes one occurrence of `x` and nothing else (as multisets) |
| Rivers.RemoveFirstDistinct | geo_rivers.py:69-70 | in a list without repetitions, `remove` removes exactly that lake |
| Rivers.DistinctCount | geo_rivers.py:164 | a list without repetitions holds every lake at most once |
| Rivers.CountDistinct | geo_rivers.py:164 | a list holding every lake at most once has no repetitions |
| Rivers.DropAllMembers | geo_rivers.py:67-70 | the removal loop removes exactly the lakes on `rm_lakes` and keeps the list free of repetitions |
| Rivers.LakesResult | geo_rivers.py:29-70 | what handle_lakes leaves is a well-formed table |
| Rivers.LakesFoldRemoved | geo_rivers.py:62-63 | only lakes of the list are put on `rm_lakes` |
| Rivers.LakesFoldMatched | geo_rivers.py:38-63 | the i-th lake is put on `rm_lakes` exactly when its step matched a mouth in the table reached by then |
| Rivers.LakesPassMatched | geo_rivers.py:38-63 | in handle_lakes, a lake is put on `rm_lakes` exactly when some level-`level` mouth flowed into it |
| Rivers.LakesResultLakes | geo_rivers.py:62-70 | a lake leaves the list exactly when it matched some mouth; unmatched lakes stay, without repetitions |
| Rivers.LakeStepCandidates | geo_rivers.py:44-66 | a lake step only removes candidates |
| Rivers.LakesFoldCandidates | geo_rivers.py:35-66 | a loop of steps that never add candidates never adds one |
| Rivers.LakesPassCandidates | geo_rivers.py:29-70 | handle_lakes only removes candidates |
| Rivers.CutInflows | geo_rivers.py:44-63 | the inner loop cuts the listed mouths and appends the lake to `rm_lakes` once per mouth |
| Rivers.LakeVisit | geo_rivers.py:35-66 | the body of `for lake in lakes` is LakeStep, with the lake appended once per matched mouth |
| Rivers.DropLakes | geo_rivers.py:67-70 | the removal loop computes DropAll |
| Rivers.LakesFoldSnoc | geo_rivers.py:35 | visiting one more lake extends the loop by one step |
| Rivers.HandleLakes | geo_rivers.py:29-70 | handle_lakes leaves LakesResult: the table and the lakes still to consider |
| Rivers.Retained | geo_rivers.py:15-19 | the WHERE of make_axis: exactly the listed pieces the shrunk polygon covers, in kernel order |
| Rivers.Covered | geo_rivers.py:15-19 | exactly the dumped pieces of the medial-axis union of an area river's closed ring that the shrunk polygon covers |
| Rivers.Axes | geo_rivers.py:12-19 | make_axis's query: no line when no piece is covered (the NULL union); otherwise every line is a part of the line merge of the covered pieces |
| Rivers.AreaPiecesSnoc | geo_rivers.py:147-151 | thinning one more area river appends its pieces |
| Rivers.AreaPiecesFrom | geo_rivers.py:147-151 | every piece comes from one of the area rivers |
| Rivers.InsertStreams | geo_rivers.py:23-27 | each piece draws one new id |
| Rivers.InsertStreamsRows | geo_rivers.py:23-27 | old rows stay, and the i-th id drawn holds the i-th piece as a `candidate` `STREAMS` row |
| Rivers.InsertStreamsAppend | geo_rivers.py:23-27 | inserting two lists of pieces is inserting one after the other |
| Rivers.ThinResult | geo_rivers.py:138-151 | thinning keeps the table well-formed (content in ThinRows) |
| Rivers.ThinRows | geo_rivers.py:138-151 | thinning keeps every row and adds only `candidate` `STREAMS` rows, each a part of the line merge of the covered medial pieces of some area river with at least one covered piece |
| Rivers.MakeAxis | geo_rivers.py:12-27 | make_axis inserts one candidate `STREAMS` row per part of the line merge of the covered pieces, in order |
| Rivers.ThinAreaRivers | geo_rivers.py:138-151 | the `for row in rows` loop computes ThinResult |
| Rivers.MarkCandidates | geo_rivers.py:153-155 | every open STREAMS row is renamed `candidate`, nothing else changes |
| Rivers.MarkedCandidates | geo_rivers.py:153-155 | after marking, the candidates are the earlier ones plus every open stream not typed `River/%` |
| Rivers.MouthTerminal | geo_rivers.py:174-176 | every mouth of level L is part of the boundary of level L+1 |
| Rivers.LevelBoundary | geo_rivers.py:158-177 | the boundary is NULL exactly when no row is of type `0` (level 0) or `River/{L-1}/%` (level L); otherwise it is made of exactly those rows' geometries |
| Rivers.LakeList | geo_rivers.py:161-164 | `lakes` lists every lake row once, with its outline |
| Rivers.LevelRivers | geo_rivers.py:165-166 | the two handle_river passes of a level keep the table well-formed |
| Rivers.LevelLakes | geo_rivers.py:167-168 | the two handle_lakes calls of a level keep the table well-formed |
| Rivers.Round | geo_rivers.py:171-181 | one level keeps the table well-formed |
| Rivers.RoundCandidates | geo_rivers.py:165-181 | every row a level counts leaves the candidate set, and the lake steps add none |
| Rivers.Rounds | geo_rivers.py:172-181 | the `while length > 0` loop terminates: each level with a positive yield shrinks the candidate set |
| Rivers.ExecuteResult | geo_rivers.py:127-187 | what execute leaves is a well-formed table |
| Rivers.RoundsLevels | geo_rivers.py:172-181 | the loop stops within as many further levels as there are candidates left, plus one |
| Rivers.ExecuteLevels | geo_rivers.py:153-181 | the number of levels is at most the number of candidates after marking |
| Rivers.RunRivers | geo_rivers.py:178-179 | the two handle_river calls of a level compute LevelRivers and the sum of their yields |
| Rivers.RunLakes | geo_rivers.py:180-181 | the two handle_lakes calls compute LevelLakes on the shared list |
| Rivers.RunRound | geo_rivers.py:171-181 | one level of the loop computes Round |
| Rivers.Execute | geo_rivers.py:127-187 | execute leaves ExecuteResult; `found` counts the rivers before it and `left` the open streams not named `-` after it |
| Coast.PairsExact | geo_coast.py:20-30 | on the line's own row an endpoint is never paired with itself; on any other row all four pairs occur |
| Coast.BestPairLeast | geo_coast.py:27-31 | the pair chosen by the inner ORDER BY is an allowed pair of least distance |
| Coast.LinkTo | geo_coast.py:20-31 | a bridge is a two-point line |
| Coast.BestBelow | geo_coast.py:31-37 | any row returned qualifies: a bridge shorter than EPS to a row typed `%COASTLINE%` or `0` |
| Coast.ArgMinBelow | geo_coast.py:34-37 | the argmin returns a qualifying id |
| Coast.ArgMinBelowLeast | geo_coast.py:34-37 | the id chosen is of least length, every lower qualifying id is strictly longer, and there is none exactly when no id qualifies |
| Coast.BestBelowArgMin | geo_coast.py:31-37 | the outer query is the argmin of the bridge lengths over the qualifying rows |
| Coast.ShortestConnect | geo_coast.py:12-39 | the bridge returned leads to an existing row |
| Coast.ShortestConnectBest | geo_coast.py:12-39 | at most one bridge: the globally shortest qualifying one, the lowest id on ties, carrying its target's type and geometry; none exactly when no row qualifies |
| Coast.NameRuleCases | geo_coast.py:46-62 | a lake covering (-17.7 45.0) becomes `Lake/Tontury` type 520 even if it covers (-17.7 46.6) too; one covering only the latter becomes `Lake/Arain` type 4180; others are unchanged; the geometry never changes |
| Coast.NameLake | geo_coast.py:46-62 | name_lake changes only the row named, by the naming rule |
| Coast.ValidLine | geo_coast.py:99-111 | when one merged part remains it is the result |
| Coast.MakeValidLine | geo_coast.py:99-116 | make_valid_line overwrites only the geometry of `line_id` |
| Coast.ValidLineLoop | geo_coast.py:101-111 | the `while multi_line` loop, dropping the shortest part each round, computes ValidLine |
| Coast.ValidLake | geo_coast.py:64-76 | the loop stops with survivors whose shortest part is longer than EPS; it stops at once when the shortest part already is |
| Coast.ValidLakeLong | geo_coast.py:64-76 | with the parts ordered by length, every surviving lake part is longer than EPS |
| Coast.ValidLakeLoop | geo_coast.py:66-76 | the `while multi_polys` loop computes ValidLake |
| Coast.InsertLakes | geo_coast.py:86-97 | each surviving part draws one new id |
| Coast.InsertLakesRows | geo_coast.py:86-97 | old rows stay, and the i-th id drawn holds the i-th part as a `nameless` `/COASTLINE/tmp-lake` row after name_lake |
| Coast.LakeResult | geo_coast.py:64-97 | make_valid_lake keeps the table well-formed when it succeeds |
| Coast.LakeResultRows | geo_coast.py:64-97 | it fails exactly when no part survives; one survivor is written into the row itself as a named tmp lake with that part as geometry, keeping the row's style; several become new named rows and the row goes; nothing else changes |
| Coast.InsertLakeRows | geo_coast.py:86-95 | the `for poly in merge` loop computes InsertLakes |
| Coast.MakeValidLake | geo_coast.py:64-97 | make_valid_lake computes LakeResult |
| Coast.ValidateLine | geo_coast.py:99-116 | one make_valid_line call computes MakeValidLine |
| Coast.ValidateAll | geo_coast.py:147-152 | validating the lines keeps keys and sequence |
| Coast.ValidateAllUnlisted | geo_coast.py:147-152 | a row not listed is left alone |
| Coast.ValidateAllListed | geo_coast.py:147-152 | each listed row gets the reduced form of its own geometry |
| Coast.ValidateCoast | geo_coast.py:147-152 | step 1 keeps keys and sequence |
| Coast.ValidateCoastRows | geo_coast.py:147-152 | every COASTLINE row holds the reduced form of its geometry; no other row changes |
| Coast.ValidateRows | geo_coast.py:151-152 | the `for line in lines` loop computes ValidateAll |
| Coast.ValidateLines | geo_coast.py:146-152 | step 1 computes ValidateCoast |
| Coast.DeleteCount | geo_coast.py:173-174 | a DELETE of an existing row removes exactly one row |
| Coast.Absorb | geo_coast.py:166-176 | a line's loop keeps the sequence; it terminates because each round deletes a row |
| Coast.AbsorbRows | geo_coast.py:167-176 | a line's loop never deletes the line; it deletes only existing rows, and changes no row but the line |
| Coast.AbsorbNoRepeats | geo_coast.py:173-175 | a line's loop never records the same row twice |
| Coast.ConnectAll | geo_coast.py:160-176 | the surviving rows are exactly those not on `deleted`, and rows not visited are unchanged |
| Coast.ConnectNoRepeats | geo_coast.py:160-176 | no row is put on `deleted` twice over the whole pass |
| Coast.ConnectResult | geo_coast.py:155-176 | step 2 keeps the sequence |
| Coast.ConnectRows | geo_coast.py:155-176 | rows that are not open coastlines survive unchanged or not at all |
| Coast.AbsorbOnce | geo_coast.py:167-176 | one round merges the bridge into the line, stops when the target is the line itself, and deletes the target otherwise |
| Coast.AbsorbLoop | geo_coast.py:166-176 | the `while connect` loop computes Absorb |
| Coast.ConnectLoop | geo_coast.py:160-176 | the `for line in lines` loop skips ids already on `deleted` and computes ConnectAll |
| Coast.ConnectLines | geo_coast.py:155-176 | step 2 on the open coastlines in id order computes ConnectResult |
| Coast.InsertAll | geo_coast.py:118-139 | each inserted row draws one new id |
| Coast.InsertAllRows | geo_coast.py:118-139 | old rows stay and the i-th id drawn holds the i-th row |
| Coast.Encircle | geo_coast.py:118-139 | encircle keeps the table well-formed |
| Coast.EncircleRows | geo_coast.py:118-139 | every row encircle adds is a closed temporary area river with the area-river style |
| Coast.EncircleLoop | geo_coast.py:131-139 | encircle's insert loop computes Encircle |
| Coast.Isles | geo_coast.py:179-215 | the isle step keeps the table well-formed and never moves the sequence back; IslesRows states its content |
| Coast.MelderynStage | geo_coast.py:179-194 | the Melderyn block keeps the table well-formed and never moves the sequence back; MelderynRows states its content |
| Coast.MelderynRows | geo_coast.py:179-194 | old rows stay unchanged; the first new ids hold the Melderyn outlines as type-`0` rows named `Coast/Melderyn`; every other new row is such a row or an encircle area river styled `fill: #36868d`; with no outline found nothing changes |
| Coast.IslesRows | geo_coast.py:179-215 | old rows stay unchanged; the first new ids hold the Melderyn outlines; every new row lies between the old and new sequence value and is a `Coast/Melderyn` or `Coast/Harn` type-`0` row or an encircle area river styled `fill: #36868d`; with no Melderyn outline and no Harn outline nothing changes |
| Coast.AddIsles | geo_coast.py:179-215 | the Melderyn and Harn blocks compute Isles |
| Coast.Promote | geo_coast.py:218-225 | closed COASTLINE rows no other closed coast row covers become type `0`; nothing else changes |
| Coast.PromoteCovered | geo_coast.py:218-225 | a coastline inside another closed coast row is never promoted |
| Coast.LakePolys | geo_coast.py:229-238 | every piece belongs to a closed coastline, and every closed coastline with pieces contributes one |
| Coast.LakeStage | geo_coast.py:229-241 | the lake step keeps the table well-formed when it succeeds |
| Coast.LakeStageRow | geo_coast.py:229-241 | there are no pieces exactly when no closed coastline has any; otherwise the row handed to make_valid_lake is a closed coastline |
| Coast.Cleanup | geo_coast.py:243-247 | exactly the type-`0` rows with a name other than `main` that a `main` polygon covers are deleted; a row with a NULL name stays, since `tl.name <> 'main'` is NULL for it; survivors are unchanged |
| Coast.CoastResult | geo_coast.py:141-251 | the whole script keeps the table well-formed when it succeeds |
| Coast.Execute | geo_coast.py:141-251 | execute computes CoastResult |
| Vegetation.TypesDistinct | geo_vegetation.py:36-44 | the eight vegetation types are distinct |
| Vegetation.RawBelowMember | geo_vegetation.py:55-75 | a point is in the partial union exactly when a feeding row below `n` covers it |
| Vegetation.RawMember | geo_vegetation.py:55-75 | a point is in `raw[typ]` exactly when some feeding row's area covers it |
| Vegetation.WoodlandIsLand | geo_vegetation.py:57-65 | WOODLAND starts as the union of the land polygons (type `0`, more than 3 points) |
| Vegetation.SetUp | geo_vegetation.py:55-75 | the set-up loop fills `raw` for every type and keeps the land |
| Vegetation.ReduceByMember | geo_vegetation.py:79-87 | a point survives the reductions exactly when it is in the area and in none of the subtracted raw areas |
| Vegetation.NormalizedMember | geo_vegetation.py:77-87 | a point keeps type i exactly when type i covers it and no type j with i < j < 7 does |
| Vegetation.NormalizedWithinRaw | geo_vegetation.py:77-87 | each normalised type is a subset of its raw area |
| Vegetation.NormalizedDisjoint | geo_vegetation.py:77-87 | any two normalised types other than the last are disjoint |
| Vegetation.LastTwoUnreduced | geo_vegetation.py:80 | SNOW_x2F_ICE and SHOAL_x2F_REEF are never reduced |
| Vegetation.ShoalReducesNothing | geo_vegetation.py:80 | SHOAL_x2F_REEF never reduces another type |
| Vegetation.Emit | geo_vegetation.py:89-96 | an INSERT over ST_Dump adds at most one row per piece |
| Vegetation.EmitRows | geo_vegetation.py:89-96 | every emitted row is named `-`, has the given type and a fresh id and is the area of a (polygon) piece; with no filter no piece is lost |
| Vegetation.AddPieces | geo_vegetation.py:89-96 | the rows are appended and the sequence advances by their number |
| Vegetation.TmpStageRows | geo_vegetation.py:77-96 | every row the normalisation adds is a polygon piece of a normalised type, stored as `VEGTMP/<type>` |
| Vegetation.Normalize | geo_vegetation.py:77-96 | the nested loops compute `redux` as Normalized for every type and store the TmpStage rows |
| Vegetation.VegKindOfTmp | geo_vegetation.py:103-104 | the new type of a `VEGTMP/<type>` row is `VEG//<type>` |
| Vegetation.Cut | geo_vegetation.py:100-115 | the cut lies within the area, on land, or off land for shoal/reef |
| Vegetation.PiecesRows | geo_vegetation.py:100-115 | each added row comes from a temporary row of the right kind and lies within its cut |
| Vegetation.RestrictRows | geo_vegetation.py:100-115 | every restricted row is named `-`, typed after its temporary row, within it, and on land (off land for shoal/reef) |
| Vegetation.RestrictStage | geo_vegetation.py:100-115 | a restricting INSERT keeps all rows and appends |
| Vegetation.DropTmpRows | geo_vegetation.py:116-118 | the DELETE removes exactly the `VEGTMP/` rows |
| Vegetation.VegFinal | geo_vegetation.py:47-118 | no `VEGTMP/` row is left; every row is old or cut from a temporary row, on land for vegetation and off land for shoal/reef |
| Vegetation.Execute | geo_vegetation.py:47-118 | main computes VegResult |
| SvgPeaks.GlyphsAreCharacters | svg_replace.py:9-48 | the apostrophe and every LETTERS glyph map to a single character: a digit, a capital or the apostrophe |
| SvgPeaks.ReplaceSpec | svg_replace.py:50-57 | without a glyph, line and location come back unchanged; a set location is kept; a rewrite of a fresh run sets it to the line's M coordinates; it fails exactly when a rewrite needs the coordinates and the match finds none |
| SvgPeaks.ReplaceAllLocation | svg_replace.py:69-71 | a set location survives the whole chain; a rewritten line always carries a set location |
| SvgPeaks.ReplaceAllStops | svg_replace.py:69-71 | once the chain has failed it stays failed |
| SvgPeaks.ReplaceAllSome | svg_replace.py:69-71 | if the coordinate match never fails, neither does the chain |
| SvgPeaks.ReplaceAllNoGlyph | svg_replace.py:69-71 | a line without any glyph of the chain comes back unchanged |
| SvgPeaks.ReplaceAllAt | svg_replace.py:69-71 | with a set location the chain never fails, keeps the location and yields the substituted text |
| SvgPeaks.ReplaceAllFresh | svg_replace.py:50-71 | from `[0, 0]` the chain yields the substituted text, fails only when the line's M coordinates cannot be read, and sets the location to the M coordinates of the line before any substitution |
| SvgPeaks.RewriteLine | svg_replace.py:69-71 | the apostrophe first, then each LETTERS key in table order |
| SvgPeaks.PeaksSnoc | svg_replace.py:67 | one more input line is one more iteration |
| SvgPeaks.PeaksSettled | svg_replace.py:72-85 | between lines, a pending text always has a set location |
| SvgPeaks.PeaksRuns | svg_replace.py:59-85 | if the coordinates can always be read, the script never stops with an exception |
| SvgPeaks.PeaksStopped | svg_replace.py:59-85 | after a crash nothing more is written |
| SvgPeaks.RewrittenWritesNothing | svg_replace.py:72-74 | a rewritten line writes nothing and only joins the run, so a run pending at end of input is never written |
| SvgPeaks.PassThrough | svg_replace.py:72-85 | outside a run, a line without a glyph is copied unchanged and the state stays fresh |
| SvgPeaks.RunState | svg_replace.py:63-74 | after a run of rewritten lines begun on a fresh state, `bline` is the run's raw lines, `oline` its rewritten stripped text and `location` the M coordinates of its first line |
| SvgPeaks.RunFirst | svg_replace.py:68-74 | the first rewritten line of a run starts `bline`, `oline` and the location |
| SvgPeaks.RunNext | svg_replace.py:68-74 | a later rewritten line extends `bline` and `oline` and keeps the location |
| SvgPeaks.RunUnlocated | svg_replace.py:50-57 | a run whose first line has no readable M coordinates stops the script there, with nothing more written |
| SvgPeaks.LongRun | svg_replace.py:75-85 | a run of rewritten lines whose text is longer than 5 characters, ended by a line left alone, is written as one circle line with `PEAKN/<text>` at the M coordinates of its first line, then the ending line; its raw lines are dropped and the state resets |
| SvgPeaks.ShortRun | svg_replace.py:60-85 | a run whose text has at most 5 characters is replayed verbatim, its raw lines then the line that ended it, and the state resets |
| SvgPeaks.PeaksLoop | svg_replace.py:59-85 | the `peaks` loop writes what Peaks gives and reports whether it stopped |
| PeakLabels.First | geo_pts.py:13 | `substring(s for 1)` is the first character, or empty |
| PeakLabels.DecodeLabel | geo_pts.py:13-14 | a label made of a word in capitals and a number decodes to the word, title-cased, and the number |
| PeakLabels.PeakNameShape | geo_pts.py:13 | the name starts with the label's first character; every other character is the lower-cased label character at the same place, before the trailing digits |
| PeakLabels.QuoteRoundTrip | geo_pts.py:25-28 | doubling apostrophes makes a well-formed SQL literal whose value is the name |
| PeakLabels.NearestBelow | geo_pts.py:16-19 | the LATERAL subquery returns a `PEAKN` label point |
| PeakLabels.NearestLeast | geo_pts.py:16-19 | the label chosen is at least as near as every other label, and there is none only when no label exists |
| PeakLabels.LabelledBelow | geo_pts.py:16-21 | exactly the PEAK points whose nearest label is closer than 0.03, each once, ascending |
| PeakLabels.QueryBelow | geo_pts.py:12-23 | the query yields one row per labelled point |
| PeakLabels.DecodedAppend | geo_pts.py:12-23 | joining two lists of decoded rows gives a list of decoded rows |
| PeakLabels.QueryDecodes | geo_pts.py:12-23 | each result row carries the decoded name and elevation of its own point's label |
| PeakLabels.ApplyUpdates | geo_pts.py:24-30 | every listed row gets its name and `svgid` and no other row changes; the loop fails exactly when some elevation is not a numeric literal |
| PeakLabels.UpdatedExpected | geo_pts.py:24-30 | a labelled point's row after its UPDATE is the expected row |
| PeakLabels.ResultsExpected | geo_pts.py:12-30 | after the updates every row of the points table is the expected row |
| PeakLabels.RowElevation | geo_pts.py:14-28 | a result row's `svgid` is the decoded elevation of its point |
| PeakLabels.LabelRow | geo_pts.py:16-21 | every labelled point has its result row |
| PeakLabels.QueryMalformed | geo_pts.py:14-28 | some result row has a malformed elevation exactly when some labelled point's label decodes to one |
| PeakLabels.LabelPeaks | geo_pts.py:9-30 | create_peaks fails exactly when a labelled point's elevation is not a numeral; otherwise only labelled points change, each to its decoded name and elevation, read from its nearest label |

## Left out

- **Floating-point geometry.** The PostGIS/SFCGAL operations (ST_Buffer, ST_Union, ST_LineMerge, ST_Difference, ST_ClosestPoint, ST_Polygonize, CG_ApproximateMedialAxis, ST_Distance against EPS) are `Kernel` fields, because they are foreign library calls over floating point. Only the facts named in `requires` predicates are assumed of them.
- **Isle and lake-candidate extraction.** The isle outlines of Melderyn and Harn (geo_coast.py:179-215) are the kernel fields `melderyn` and `harn`. The geometry of `encircle` is `rivers` (geo_coast.py:121-130), and the lake-candidate buffering is `lakeParts` (geo_coast.py:229-238). Only the rows they lead to are modelled.
- **Plumbing.** Database connections, `argparse`, sequence creation, `commit`, `print`/`verbosity` and SQL string assembly are I/O. The counts the scripts only print are modelled only in `Rivers.Execute`.
- **Crashes.** A Python exception or malformed SQL ends the script. geo_coast.py's empty geometry array, geo_pts.py's malformed UPDATE and a failed regex match in svg_replace.py are modelled as a `None` or `Stopped` outcome. The database state is left as it was then, since nothing is committed.
- **Concrete coordinates.** The coordinate checks of the `test_*` functions depend on real geometry and are not modelled.
- **Other scripts.** geo_roads.py, geo_height.py and geo_lakes.py are not part of this model.
- **The regex engine and file handling of svg_replace.py.** The engine is the `Regex` datatype and its `SubLaw` predicate. The model works on its input lines and output string.
- Vegetation.Raw: when the land or a vegetation type has no feeding rows, geo_vegetation.py builds the literal `''::geometry` (geo_vegetation.py:63-64, 74 and 85). PostGIS rejects that literal, so the script stops there. The model takes such a raw area as the empty set and carries on; Vegetation.WoodlandIsLand, Vegetation.SetUp, Vegetation.Normalize and Vegetation.Execute inherit this.
- **Character handling.** PostgreSQL's `lower` is modelled on ASCII capitals only; its locale-dependent mapping of other letters is not modelled.
- **The ORDER BY of the merged parts.** It is assumed through `Coast.SortedMerge`.
- Coast.ValidLine: its contract states only the single-part exit of the loop. Dropping the last (shortest) part each round is its definition, and what the kept line is beyond that depends on the kernel's merge.
- PeakLabels.ApplyUpdates: a numeric `svgid` is approximated as a non-empty string of digits (`Numeral`). Forms PostgreSQL would also accept, such as `1.5`, count as malformed.
- PeakLabels.LabelPeaks: `ORDER BY dist DESC` is not modelled. Updates go to distinct ids, so their order does not change the result.
- Vegetation.Execute: the SWAMP block (geo_vegetation.py:66-67) is dead. SWAMP is not in the type list, so its raw area is never read and the model leaves it out.
- Rivers.LakeList: the lake query looks for `COASTLINE/tmp-lake` without the leading slash geo_coast.py writes. The model follows each script's own literal.

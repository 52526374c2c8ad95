/**
 * The per-sheet conversion and the loop over the workbook
 * (scripts/build_json_from_xlsx.py:52-157): each sheet becomes a course
 * document at `data/courses/<sheet>.json` and one entry of the manifest
 * `data/courses_index.json`, unless it has no score column.
 */
module Build {

  import opened Wrappers
  import opened Text
  import opened Cells
  import opened Columns
  import opened SheetNames
  import opened Results

  /** One worksheet: its name, its header labels (as `str`) and its data rows. */
  datatype Sheet = Sheet(name: string, headers: seq<string>, rows: seq<Row>)

  /** The `meta` object of a course document. */
  datatype Meta = Meta(
    raceId: string,
    name: string,
    series: string,
    country: Option<string>,
    dataSource: string,
    year: Option<int>,
    distanceKm: Option<real>,
    elevationM: Option<real>,
    prizeMoney: Option<string>,
    notes: Option<string>,
    sourceUrl: Option<string>)

  /** A course document: `{"meta": ..., "results": [...]}`. */
  datatype Course = Course(meta: Meta, results: seq<Result>)

  /** A course document together with the path it is written to, relative to the output root. */
  datatype CourseFile = CourseFile(path: string, course: Course)

  /** One entry of the manifest's `courses` list. */
  datatype ManifestEntry = ManifestEntry(
    raceId: string,
    name: string,
    year: Option<int>,
    series: string,
    country: Option<string>,
    dataSource: string,
    path: string)

  /**
   * What happens to one sheet: `df.columns[0]` raises on a sheet without
   * columns; a sheet without a score column is skipped; any other becomes a course.
   */
  datatype SheetOutcome = NoColumns | Skipped | Converted(course: Course)

  /**
   * Everything the run produces: the course files, in sheet order, and the
   * manifest's `courses` list, which is `None` when the run aborts before
   * writing `data/courses_index.json`.
   */
  datatype Output = Output(written: seq<CourseFile>, index: Option<seq<ManifestEntry>>)

  const DataSource: string := "ITRA"
  const CoursesDir: string := "data/courses/"
  const JsonSuffix: string := ".json"

  /** `f"data/courses/{sheet}.json"`: the sheet name between the directory and the suffix. */
  function CoursePath(sheet: string): (path: string)
    ensures |path| == |CoursesDir| + |sheet| + |JsonSuffix|
    ensures path[..|CoursesDir|] == CoursesDir && path[|path| - |JsonSuffix|..] == JsonSuffix
    ensures path[|CoursesDir|..|path| - |JsonSuffix|] == sheet
  {
    var path := CoursesDir + sheet + JsonSuffix;
    assert path[..|CoursesDir|] == CoursesDir;
    assert path[|path| - |JsonSuffix|..] == JsonSuffix;
    assert path[|CoursesDir|..|path| - |JsonSuffix|] == sheet;
    path
  }

  /** Distinct sheets are written to distinct paths. */
  lemma CoursePathInjective(a: string, b: string)
    ensures CoursePath(a) == CoursePath(b) ==> a == b
  {
  }

  /** The `meta` dictionary built for a sheet. */
  function MetaFor(sheet: string): (m: Meta)
    ensures m.raceId == sheet && m.name == sheet && m.dataSource == DataSource
    ensures m.series == DecodeSheetName(sheet).series && m.year == DecodeSheetName(sheet).year
    ensures m.country.None? && m.distanceKm.None? && m.elevationM.None?
    ensures m.prizeMoney.None? && m.notes.None? && m.sourceUrl.None?
  {
    var code := DecodeSheetName(sheet);
    Meta(sheet, sheet, code.series, None, DataSource, code.year, None, None, None, None, None)
  }

  /** The manifest entry appended for a converted course. */
  function EntryFor(c: Course): (e: ManifestEntry)
    ensures e.raceId == c.meta.raceId && e.name == c.meta.name && e.year == c.meta.year
    ensures e.series == c.meta.series && e.country == c.meta.country && e.dataSource == c.meta.dataSource
    ensures e.path == CoursePath(c.meta.raceId)
  {
    ManifestEntry(c.meta.raceId, c.meta.name, c.meta.year, c.meta.series, c.meta.country,
                  c.meta.dataSource, CoursePath(c.meta.raceId))
  }

  function FileFor(c: Course): CourseFile
  {
    CourseFile(CoursePath(c.meta.raceId), c)
  }

  /** The body of the loop over `xls.sheet_names` for one sheet. */
  function ConvertSheetSpec(s: Sheet, p: Parsers): SheetOutcome
  {
    match RankColumn(s.headers)
    case None => NoColumns
    case Some(rankCol) =>
      var rows := NumericRankRows(s.rows, rankCol, p);
      var colmap := ColumnMap(s.headers);
      if Score !in colmap then Skipped
      else Converted(Course(MetaFor(s.name), FinalResults(Collected(rows, rankCol, colmap, p))))
  }

  method ConvertSheet(s: Sheet, p: Parsers) returns (outcome: SheetOutcome)
    ensures outcome == ConvertSheetSpec(s, p)
  {
    var rankCol := ChooseRankColumn(s.headers);
    if rankCol.None? {
      return NoColumns;
    }
    var rows := NumericRankRows(s.rows, rankCol.value, p);
    var colmap := BuildColumnMap(s.headers);
    if Score !in colmap {
      return Skipped;
    }
    var meta := MetaFor(s.name);
    var results := CollectResults(rows, rankCol.value, colmap, p);
    results := KeepRanked(results);
    results := SortByRank(results);
    results := Truncate(results);
    outcome := Converted(Course(meta, results));
  }

  /** A sheet is converted exactly when it has columns and one of them is found for the score. */
  lemma SheetOutcomeCases(s: Sheet, p: Parsers)
    ensures ConvertSheetSpec(s, p).NoColumns? <==> s.headers == []
    ensures ConvertSheetSpec(s, p).Skipped? <==> s.headers != [] && Score !in ColumnMap(s.headers)
    ensures ConvertSheetSpec(s, p).Converted? <==> s.headers != [] && Score in ColumnMap(s.headers)
  {
    RankColumnChoice(s.headers);
  }

  /**
   * A converted course is named after its sheet, carries the sheet name's
   * series and year, and holds a bounded, rank-sorted list of positive ranks.
   */
  lemma ConvertedCourse(s: Sheet, p: Parsers)
    requires ConvertSheetSpec(s, p).Converted?
    ensures var c := ConvertSheetSpec(s, p).course;
      && c.meta == MetaFor(s.name)
      && c.meta.raceId == s.name && c.meta.name == s.name
      && c.meta.series == DecodeSheetName(s.name).series
      && c.meta.year == DecodeSheetName(s.name).year
      && c.meta.dataSource == DataSource
      && |c.results| <= MaxResults
      && (forall i :: 0 <= i < |c.results| ==> c.results[i].rank >= 1)
      && SortedByRank(c.results)
  {
    var rankCol := RankColumn(s.headers).value;
    var colmap := ColumnMap(s.headers);
    FinalResultsShape(Collected(NumericRankRows(s.rows, rankCol, p), rankCol, colmap, p));
  }

  /** The outcome of every sheet, in workbook order. */
  function Outcomes(sheets: seq<Sheet>, p: Parsers): (os: seq<SheetOutcome>)
    ensures |os| == |sheets|
    ensures forall i :: 0 <= i < |sheets| ==> os[i] == ConvertSheetSpec(sheets[i], p)
  {
    seq(|sheets|, i requires 0 <= i < |sheets| => ConvertSheetSpec(sheets[i], p))
  }

  /**
   * The run driven by the sheets' outcomes: a converted sheet adds a course
   * file and a manifest entry; the first sheet without columns aborts it, so
   * no manifest is written.
   */
  function Run(os: seq<SheetOutcome>): (out: Output)
    ensures |out.written| <= |os|
    ensures out.index.Some? ==> |out.index.value| == |out.written|
  {
    if os == [] then Output([], Some([]))
    else
      match os[0]
      case NoColumns => Output([], None)
      case Skipped => Run(os[1..])
      case Converted(c) => Prepend([FileFor(c)], [EntryFor(c)], Run(os[1..]))
  }

  /** The whole run over the sheets of a workbook. */
  function Process(sheets: seq<Sheet>, p: Parsers): (out: Output)
    ensures |out.written| <= |sheets|
    ensures out.index.Some? ==> |out.index.value| == |out.written|
  {
    Run(Outcomes(sheets, p))
  }

  /** What has been produced so far, followed by what the remaining sheets produce. */
  function Prepend(written: seq<CourseFile>, entries: seq<ManifestEntry>, later: Output): Output
  {
    Output(written + later.written,
           match later.index
           case Some(es) => Some(entries + es)
           case None => None)
  }

  /** Nothing produced yet: the start of the loop over the sheets. */
  lemma PrependNothing(o: Output)
    ensures Prepend([], [], o) == o
  {
    assert [] + o.written == o.written;
    if o.index.Some? {
      assert [] + o.index.value == o.index.value;
    }
  }

  /** The run from sheet `i` on, once sheet `i` is done with. */
  lemma RunFrom(os: seq<SheetOutcome>, i: nat)
    requires i < |os|
    ensures Run(os[i..]) ==
      match os[i]
      case NoColumns => Output([], None)
      case Skipped => Run(os[i + 1..])
      case Converted(c) => Prepend([FileFor(c)], [EntryFor(c)], Run(os[i + 1..]))
  {
    assert os[i..][0] == os[i] && os[i..][1..] == os[i + 1..];
  }

  /** Prepending in two steps is prepending once. */
  lemma PrependTwice(w1: seq<CourseFile>, e1: seq<ManifestEntry>, w2: seq<CourseFile>, e2: seq<ManifestEntry>, o: Output)
    ensures Prepend(w1, e1, Prepend(w2, e2, o)) == Prepend(w1 + w2, e1 + e2, o)
  {
    assert w1 + (w2 + o.written) == (w1 + w2) + o.written;
    if o.index.Some? {
      assert e1 + (e2 + o.index.value) == (e1 + e2) + o.index.value;
    }
  }

  /** `main`: the loop over the sheets that writes each course and collects the manifest. */
  method BuildWorkbook(sheets: seq<Sheet>, p: Parsers) returns (out: Output)
    ensures out == Process(sheets, p)
  {
    ghost var os := Outcomes(sheets, p);
    var written: seq<CourseFile> := [];
    var coursesIndex: seq<ManifestEntry> := [];
    var i := 0;
    assert os[0..] == os;
    PrependNothing(Run(os));
    while i < |sheets|
      invariant 0 <= i <= |sheets|
      invariant Run(os) == Prepend(written, coursesIndex, Run(os[i..]))
    {
      var outcome := ConvertSheet(sheets[i], p);
      RunFrom(os, i);
      if outcome.NoColumns? {
        assert written + [] == written;
        return Output(written, None);
      }
      if outcome.Converted? {
        PrependTwice(written, coursesIndex, [FileFor(outcome.course)], [EntryFor(outcome.course)], Run(os[i + 1..]));
        written := written + [FileFor(outcome.course)];
        coursesIndex := coursesIndex + [EntryFor(outcome.course)];
      }
      i := i + 1;
    }
    assert os[i..] == [];
    assert written + [] == written && coursesIndex + [] == coursesIndex;
    out := Output(written, Some(coursesIndex));
  }

  // ---------------------------------------------------------------- properties of the run

  /** The run writes no manifest exactly when some outcome is an abort. */
  lemma {:induction false} RunAborts(os: seq<SheetOutcome>)
    ensures Run(os).index.None? <==> exists i :: 0 <= i < |os| && os[i].NoColumns?
  {
    if os != [] {
      RunAborts(os[1..]);
      if exists i :: 0 <= i < |os[1..]| && os[1..][i].NoColumns? {
        var i :| 0 <= i < |os[1..]| && os[1..][i].NoColumns?;
        assert os[i + 1].NoColumns?;
      }
      if exists i :: 0 <= i < |os| && os[i].NoColumns? {
        var i :| 0 <= i < |os| && os[i].NoColumns?;
        if i > 0 {
          assert os[1..][i - 1].NoColumns?;
        }
      }
    }
  }

  /**
   * Every course file goes to its course's path, and a written manifest has
   * exactly one entry per course file, in the same order.
   */
  lemma {:induction false} RunManifestMatchesFiles(os: seq<SheetOutcome>)
    ensures var out := Run(os);
      && (forall i :: 0 <= i < |out.written| ==> out.written[i] == FileFor(out.written[i].course))
      && (out.index.Some? ==>
            && |out.index.value| == |out.written|
            && forall i :: 0 <= i < |out.written| ==> out.index.value[i] == EntryFor(out.written[i].course))
  {
    if os != [] {
      RunManifestMatchesFiles(os[1..]);
      var rest := Run(os[1..]);
      if os[0].Converted? {
        var out := Run(os);
        assert forall i :: 1 <= i < |out.written| ==> out.written[i] == rest.written[i - 1];
        if rest.index.Some? {
          assert forall i :: 1 <= i < |out.written| ==> out.index.value[i] == rest.index.value[i - 1];
        }
      }
    }
  }

  /** Every course file written is the course of some outcome. */
  lemma {:induction false} RunWritesConverted(os: seq<SheetOutcome>)
    ensures forall f :: f in Run(os).written ==> Converted(f.course) in os
  {
    if os != [] {
      RunWritesConverted(os[1..]);
      var rest := Run(os[1..]).written;
      assert os[0].NoColumns? ==> Run(os).written == [];
      assert os[0].Skipped? ==> Run(os).written == rest;
      assert os[0].Converted? ==> Run(os).written == [FileFor(os[0].course)] + rest;
      assert forall o :: o in os[1..] ==> o in os;
    }
  }

  /** The race ids of the converted courses, in outcome order. */
  function ConvertedIds(os: seq<SheetOutcome>): seq<string>
  {
    if os == [] then []
    else (if os[0].Converted? then [os[0].course.meta.raceId] else []) + ConvertedIds(os[1..])
  }

  /** A written manifest lists the converted courses' race ids, in order. */
  lemma {:induction false} RunListsConverted(os: seq<SheetOutcome>)
    requires Run(os).index.Some?
    ensures RaceIds(Run(os).index.value) == ConvertedIds(os)
  {
    if os != [] {
      RunListsConverted(os[1..]);
      if os[0].Converted? {
        var es := Run(os[1..]).index.value;
        assert RaceIds([EntryFor(os[0].course)] + es) == [os[0].course.meta.raceId] + RaceIds(es);
      }
    }
  }

  /** The names of the sheets satisfying `P`, in workbook order. */
  function NamesWhere(sheets: seq<Sheet>, P: Sheet -> bool): seq<string>
  {
    if sheets == [] then []
    else (if P(sheets[0]) then [sheets[0].name] else []) + NamesWhere(sheets[1..], P)
  }

  /** When outcome `i` is a conversion of sheet `i` exactly when `P` holds, the ids are those sheets' names. */
  lemma {:induction false} ConvertedIdsAreNames(os: seq<SheetOutcome>, sheets: seq<Sheet>, P: Sheet -> bool)
    requires |os| == |sheets|
    requires forall i :: 0 <= i < |os| ==> (os[i].Converted? <==> P(sheets[i]))
    requires forall i :: 0 <= i < |os| && os[i].Converted? ==> os[i].course.meta.raceId == sheets[i].name
    ensures ConvertedIds(os) == NamesWhere(sheets, P)
  {
    if os != [] {
      assert forall i :: 0 <= i < |os[1..]| ==> os[1..][i] == os[i + 1] && sheets[1..][i] == sheets[i + 1];
      ConvertedIdsAreNames(os[1..], sheets[1..], P);
    }
  }

  /** Names picked from a list of distinct names are distinct and come from the list. */
  lemma {:induction false} NamesWhereDistinct(sheets: seq<Sheet>, P: Sheet -> bool)
    requires forall i, j :: 0 <= i < j < |sheets| ==> sheets[i].name != sheets[j].name
    ensures forall x :: x in NamesWhere(sheets, P) ==> exists i :: 0 <= i < |sheets| && sheets[i].name == x
    ensures forall i, j :: 0 <= i < j < |NamesWhere(sheets, P)| ==>
      NamesWhere(sheets, P)[i] != NamesWhere(sheets, P)[j]
  {
    if sheets != [] {
      var tail := sheets[1..];
      NamesWhereDistinct(tail, P);
      var names := NamesWhere(sheets, P);
      var rest := NamesWhere(tail, P);
      forall x | x in rest
        ensures exists i :: 0 <= i < |sheets| && sheets[i].name == x
      {
        var i :| 0 <= i < |tail| && tail[i].name == x;
        assert sheets[i + 1].name == x;
      }
      if P(sheets[0]) {
        assert names == [sheets[0].name] + rest;
        assert sheets[0].name !in rest by {
          forall x | x in rest
            ensures x != sheets[0].name
          {
            var i :| 0 <= i < |tail| && tail[i].name == x;
            assert sheets[i + 1].name == x;
          }
        }
        forall i, j | 0 <= i < j < |names|
          ensures names[i] != names[j]
        {
          assert names[j] == rest[j - 1];
          if i > 0 {
            assert names[i] == rest[i - 1];
          }
        }
      }
    }
  }

  /** The sheet has columns and a score column, so it becomes a course. */
  predicate Convertible(s: Sheet)
  {
    s.headers != [] && Score in ColumnMap(s.headers)
  }

  /** The race id of every manifest entry, in order. */
  function RaceIds(es: seq<ManifestEntry>): (ids: seq<string>)
    ensures |ids| == |es|
    ensures forall i :: 0 <= i < |es| ==> ids[i] == es[i].raceId
  {
    seq(|es|, i requires 0 <= i < |es| => es[i].raceId)
  }

  /** What each sheet's outcome says about the sheet. */
  lemma OutcomeFacts(sheets: seq<Sheet>, p: Parsers)
    ensures var os := Outcomes(sheets, p);
      forall i :: 0 <= i < |sheets| ==>
        && (os[i].NoColumns? <==> sheets[i].headers == [])
        && (os[i].Converted? <==> Convertible(sheets[i]))
        && (os[i].Converted? ==> os[i].course.meta.raceId == sheets[i].name)
  {
    forall i | 0 <= i < |sheets|
      ensures var o := ConvertSheetSpec(sheets[i], p);
        && (o.NoColumns? <==> sheets[i].headers == [])
        && (o.Converted? <==> Convertible(sheets[i]))
        && (o.Converted? ==> o.course.meta.raceId == sheets[i].name)
    {
      SheetOutcomeCases(sheets[i], p);
      if ConvertSheetSpec(sheets[i], p).Converted? {
        ConvertedCourse(sheets[i], p);
      }
    }
  }

  /**
   * The run writes no manifest exactly when some sheet has no columns:
   * `df.columns[0]` raises and `main` stops.
   */
  lemma ProcessAborts(sheets: seq<Sheet>, p: Parsers)
    ensures Process(sheets, p).index.None? <==> exists i :: 0 <= i < |sheets| && sheets[i].headers == []
  {
    var os := Outcomes(sheets, p);
    RunAborts(os);
    OutcomeFacts(sheets, p);
  }

  /**
   * When the manifest is written, it has one entry per course file, in the
   * same order, with the course's metadata and the path
   * `data/courses/<race_id>.json` the course is written to; its race ids are
   * the names of the sheets that have a score column, in workbook order.
   */
  lemma ProcessManifest(sheets: seq<Sheet>, p: Parsers)
    requires Process(sheets, p).index.Some?
    ensures var out := Process(sheets, p);
      && |out.index.value| == |out.written|
      && (forall i :: 0 <= i < |out.written| ==>
            out.index.value[i] == EntryFor(out.written[i].course) &&
            out.written[i].path == out.index.value[i].path == CoursePath(out.index.value[i].raceId))
      && RaceIds(out.index.value) == NamesWhere(sheets, Convertible)
  {
    var os := Outcomes(sheets, p);
    RunManifestMatchesFiles(os);
    RunListsConverted(os);
    OutcomeFacts(sheets, p);
    ConvertedIdsAreNames(os, sheets, Convertible);
  }

  /** Since a workbook's sheet names are distinct, so are the manifest's race ids. */
  lemma ManifestRaceIdsDistinct(sheets: seq<Sheet>, p: Parsers)
    requires forall i, j :: 0 <= i < j < |sheets| ==> sheets[i].name != sheets[j].name
    requires Process(sheets, p).index.Some?
    ensures var es := Process(sheets, p).index.value;
      forall i, j :: 0 <= i < j < |es| ==> es[i].raceId != es[j].raceId
  {
    ProcessManifest(sheets, p);
    NamesWhereDistinct(sheets, Convertible);
  }

  /**
   * What every course file satisfies: at most 300 results, all of rank at
   * least 1 and sorted by rank, under the metadata decoded from its race id,
   * which is its sheet's name.
   */
  predicate WellFormedCourse(c: Course)
  {
    && |c.results| <= MaxResults
    && (forall j :: 0 <= j < |c.results| ==> c.results[j].rank >= 1)
    && SortedByRank(c.results)
    && c.meta == MetaFor(c.meta.raceId)
  }

  /** Every course file the run writes is well formed. */
  lemma ProcessWritesWellFormedCourses(sheets: seq<Sheet>, p: Parsers)
    ensures var ws := Process(sheets, p).written;
      forall i :: 0 <= i < |ws| ==> WellFormedCourse(ws[i].course)
  {
    var os := Outcomes(sheets, p);
    var ws := Run(os).written;
    RunWritesConverted(os);
    forall i | 0 <= i < |ws|
      ensures WellFormedCourse(ws[i].course)
    {
      assert ws[i] in ws;
      var j :| 0 <= j < |os| && os[j] == Converted(ws[i].course);
      assert ConvertSheetSpec(sheets[j], p) == Converted(ws[i].course);
      ConvertedCourse(sheets[j], p);
    }
  }
}

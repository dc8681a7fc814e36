/** The file catalog of the annotation manager: which directory entries are
    data files, their order by name, their row counts, the name-to-ordinal
    index, and the validation of an event against the catalog. */
module Catalog {
  import opened Common
  import opened Models

  // ---------------------------------------------------------------------------
  // Name order
  // ---------------------------------------------------------------------------

  /** Python's string order: code point by code point, a proper prefix first. */
  predicate NameLess(a: string, b: string)
  {
    if |a| == 0 then |b| > 0
    else if |b| == 0 then false
    else if a[0] != b[0] then a[0] < b[0]
    else NameLess(a[1..], b[1..])
  }

  lemma {:induction false} NameLessIrreflexive(a: string)
    ensures !NameLess(a, a)
  {
    if |a| > 0 {
      NameLessIrreflexive(a[1..]);
    }
  }

  lemma {:induction false} NameLessTotal(a: string, b: string)
    requires a != b
    ensures NameLess(a, b) || NameLess(b, a)
  {
    if |a| > 0 && |b| > 0 && a[0] == b[0] {
      assert a == [a[0]] + a[1..] && b == [b[0]] + b[1..];
      NameLessTotal(a[1..], b[1..]);
    }
  }

  lemma {:induction false} NameLessTransitive(a: string, b: string, c: string)
    requires NameLess(a, b) && NameLess(b, c)
    ensures NameLess(a, c)
  {
    if |a| > 0 && |b| > 0 && |c| > 0 && a[0] == b[0] && b[0] == c[0] {
      NameLessTransitive(a[1..], b[1..], c[1..]);
    }
  }

  /** Two names that agree up to position k and differ there are ordered by that character. */
  lemma {:induction false} NameLessAt(a: string, b: string, k: nat)
    requires k < |a| && k < |b| && a[..k] == b[..k] && a[k] < b[k]
    ensures NameLess(a, b)
  {
    if k > 0 {
      assert a[0] == a[..k][0] && b[0] == b[..k][0];
      assert a[1..][..k - 1] == a[..k][1..] && b[1..][..k - 1] == b[..k][1..];
      NameLessAt(a[1..], b[1..], k - 1);
    }
  }

  // ---------------------------------------------------------------------------
  // Directory scan: which entries are data files, and their order
  // ---------------------------------------------------------------------------

  /** A directory entry: its name, whether it is a regular file, and its text
      (already decoded, with line endings already translated to '\n'). */
  datatype DirEntry = DirEntry(name: string, isFile: bool, text: string)

  /** The glob `Rec*.csv`: the name starts with "Rec" and ends with ".csv". */
  predicate MatchesPattern(name: string)
  {
    |name| >= 7 && name[..3] == "Rec" && name[|name| - 4..] == ".csv"
  }

  predicate IsCatalogFile(e: DirEntry)
  {
    e.isFile && MatchesPattern(e.name)
  }

  predicate DistinctNames(s: seq<DirEntry>)
  {
    forall i, j :: 0 <= i < j < |s| ==> s[i].name != s[j].name
  }

  predicate SortedByName(s: seq<DirEntry>)
  {
    forall i, j :: 0 <= i < j < |s| ==> NameLess(s[i].name, s[j].name)
  }

  /** The regular files of the directory whose names match the pattern, in listing order. */
  function Matching(dir: seq<DirEntry>): (r: seq<DirEntry>)
    ensures forall x :: x in r <==> x in dir && IsCatalogFile(x)
    ensures DistinctNames(dir) ==> DistinctNames(r)
  {
    if |dir| == 0 then []
    else
      var rest := Matching(dir[1..]);
      if IsCatalogFile(dir[0]) then
        assert forall x :: x in rest ==> x in dir[1..];
        assert DistinctNames(dir) ==> forall x :: x in rest ==> x.name != dir[0].name;
        [dir[0]] + rest
      else rest
  }

  lemma LessThanAll(e: DirEntry, s: seq<DirEntry>)
    requires SortedByName(s) && |s| > 0 && NameLess(e.name, s[0].name)
    ensures forall j :: 0 <= j < |s| ==> NameLess(e.name, s[j].name)
  {
    forall j | 0 < j < |s| ensures NameLess(e.name, s[j].name) {
      NameLessTransitive(e.name, s[0].name, s[j].name);
    }
  }

  lemma ConsSorted(x: DirEntry, s: seq<DirEntry>)
    requires SortedByName(s) && forall y :: y in s ==> NameLess(x.name, y.name)
    ensures SortedByName([x] + s)
  {
    var r := [x] + s;
    forall i, j | 0 <= i < j < |r| ensures NameLess(r[i].name, r[j].name) {
      assert r[j] == s[j - 1];
      if i > 0 {
        assert r[i] == s[i - 1];
      }
    }
  }

  function Insert(e: DirEntry, s: seq<DirEntry>): (r: seq<DirEntry>)
    requires SortedByName(s)
    requires forall x :: x in s ==> x.name != e.name
    ensures SortedByName(r)
    ensures multiset(r) == multiset(s) + multiset{e}
    ensures forall x :: x in r <==> x == e || x in s
  {
    if |s| == 0 then [e]
    else if NameLess(e.name, s[0].name) then
      LessThanAll(e, s);
      ConsSorted(e, s);
      [e] + s
    else
      NameLessTotal(e.name, s[0].name);
      var rest := Insert(e, s[1..]);
      assert forall x :: x in rest ==> NameLess(s[0].name, x.name);
      assert s == [s[0]] + s[1..];
      ConsSorted(s[0], rest);
      [s[0]] + rest
  }

  /** Sorting by name: the result is strictly ascending and a permutation of the input. */
  function SortByName(s: seq<DirEntry>): (r: seq<DirEntry>)
    requires DistinctNames(s)
    ensures SortedByName(r)
    ensures multiset(r) == multiset(s) && |r| == |s|
    ensures forall x :: x in r <==> x in s
  {
    if |s| == 0 then []
    else
      var rest := SortByName(s[1..]);
      assert s == [s[0]] + s[1..];
      Insert(s[0], rest)
  }

  // ---------------------------------------------------------------------------
  // Row counting
  // ---------------------------------------------------------------------------

  function NewlineCount(s: string): nat
  {
    if |s| == 0 then 0
    else NewlineCount(s[..|s| - 1]) + (if s[|s| - 1] == '\n' then 1 else 0)
  }

  /** The number of lines iterating over the text yields: one per '\n', plus
      a final line that lacks one. */
  function LineCount(text: string): nat
  {
    NewlineCount(text) + (if |text| > 0 && text[|text| - 1] != '\n' then 1 else 0)
  }

  /** Data rows: every line but the header, and never below zero. */
  function RowCount(text: string): nat
  {
    if LineCount(text) > 0 then LineCount(text) - 1 else 0
  }

  /** One streaming pass over the text, counting the lines it yields. */
  method CountRows(text: string) returns (rows: nat)
    ensures rows == RowCount(text)
    ensures rows + 1 == LineCount(text) || (rows == 0 && LineCount(text) == 0)
  {
    var total := 0;
    var i := 0;
    while i < |text|
      invariant 0 <= i <= |text|
      invariant total == NewlineCount(text[..i])
    {
      assert text[..i + 1][..i] == text[..i];
      if text[i] == '\n' {
        total := total + 1;
      }
      i := i + 1;
    }
    assert text[..i] == text;
    if |text| > 0 && text[|text| - 1] != '\n' {
      total := total + 1;
    }
    rows := if total > 0 then total - 1 else 0;
  }

  /** The text of a file whose lines are each terminated by '\n'. */
  function CsvText(lines: seq<string>): string
  {
    if |lines| == 0 then ""
    else CsvText(lines[..|lines| - 1]) + lines[|lines| - 1] + "\n"
  }

  lemma {:induction false} NewlineCountAppend(a: string, b: string)
    ensures NewlineCount(a + b) == NewlineCount(a) + NewlineCount(b)
    decreases |b|
  {
    if |b| > 0 {
      assert (a + b)[..|a + b| - 1] == a + b[..|b| - 1];
      NewlineCountAppend(a, b[..|b| - 1]);
    } else {
      assert a + b == a;
    }
  }

  lemma {:induction false} NoNewline(s: string)
    requires forall k :: 0 <= k < |s| ==> s[k] != '\n'
    ensures NewlineCount(s) == 0
  {
    if |s| > 0 {
      NoNewline(s[..|s| - 1]);
    }
  }

  lemma {:induction false} NewlineCountCsvText(lines: seq<string>)
    requires forall i, k :: 0 <= i < |lines| && 0 <= k < |lines[i]| ==> lines[i][k] != '\n'
    ensures NewlineCount(CsvText(lines)) == |lines|
  {
    if |lines| > 0 {
      var init := lines[..|lines| - 1];
      var last := lines[|lines| - 1];
      NewlineCountCsvText(init);
      NoNewline(last);
      NewlineCountAppend(CsvText(init), last);
      NewlineCountAppend(CsvText(init) + last, "\n");
      assert NewlineCount("\n") == 1 by {
        assert "\n"[..0] == "";
      }
    }
  }

  /** A file made of a header line and n data lines, with or without a final
      line terminator, counts n data rows. */
  lemma RowCountOfCsv(header: string, rows: seq<string>, tail: string)
    requires forall i, k :: 0 <= i < |rows| && 0 <= k < |rows[i]| ==> rows[i][k] != '\n'
    requires forall k :: 0 <= k < |header| ==> header[k] != '\n'
    requires forall k :: 0 <= k < |tail| ==> tail[k] != '\n'
    ensures |tail| == 0 ==> RowCount(CsvText([header] + rows)) == |rows|
    ensures |tail| > 0 ==> RowCount(CsvText([header] + rows) + tail) == |rows| + 1
  {
    var lines := [header] + rows;
    NewlineCountCsvText(lines);
    var text := CsvText(lines);
    assert |text| > 0 && text[|text| - 1] == '\n';
    if |tail| > 0 {
      NoNewline(tail);
      NewlineCountAppend(text, tail);
      assert (text + tail)[|text + tail| - 1] == tail[|tail| - 1];
    }
  }

  // ---------------------------------------------------------------------------
  // Catalog entries and the name index
  // ---------------------------------------------------------------------------

  /** The encoding recorded for every catalog file. */
  const CatalogEncoding: string := "utf-8"

  /** The file name without its four-character extension. */
  function Stem(name: string): string
  {
    if |name| >= 4 then name[..|name| - 4] else ""
  }

  /** The chart image of a file, relative to the chart directory, and its
      absolute path when that image exists. */
  function ResolveChartPath(chartDir: string, chartSubdir: string, name: string, existing: set<string>)
    : (r: (Option<string>, string))
    ensures chartSubdir != "" ==> r.1 == chartSubdir + "/" + Stem(name) + ".png"
    ensures chartSubdir == "" ==> r.1 == Stem(name) + ".png"
    ensures r.0.Some? <==> chartDir + "/" + r.1 in existing
    ensures r.0.Some? ==> r.0.value == chartDir + "/" + r.1
  {
    var relative := if chartSubdir != "" then chartSubdir + "/" + Stem(name) + ".png" else Stem(name) + ".png";
    var absolute := chartDir + "/" + relative;
    if absolute in existing then (Some(absolute), relative) else (None, relative)
  }

  function MakeInfo(csvDir: string, chartDir: string, chartSubdir: string, existing: set<string>, e: DirEntry)
    : CSVFileInfo
  {
    var (chartPath, relative) := ResolveChartPath(chartDir, chartSubdir, e.name, existing);
    CSVFileInfo(e.name, csvDir + "/" + e.name, RowCount(e.text), chartPath, relative, CatalogEncoding)
  }

  predicate Ascending(files: seq<CSVFileInfo>)
  {
    forall i, j :: 0 <= i < j < |files| ==> NameLess(files[i].name, files[j].name)
  }

  /** The index maps each file's name to its position, and nothing else. */
  predicate IndexMatches(files: seq<CSVFileInfo>, index: map<string, nat>)
  {
    && (forall n :: n in index ==> index[n] < |files| && files[index[n]].name == n)
    && (forall i :: 0 <= i < |files| ==> files[i].name in index && index[files[i].name] == i)
  }

  predicate CatalogValid(files: seq<CSVFileInfo>, index: map<string, nat>)
  {
    Ascending(files) && IndexMatches(files, index)
  }

  /** The index's ordinals are exactly 0..n-1, and every name is a file's. */
  lemma IndexIsOrdinals(files: seq<CSVFileInfo>, index: map<string, nat>)
    requires IndexMatches(files, index)
    ensures forall i :: i in index.Values <==> 0 <= i < |files|
    ensures index.Keys == set i | 0 <= i < |files| :: files[i].name
  {
    forall i | 0 <= i < |files| ensures i in index.Values {
      assert index[files[i].name] == i;
    }
  }

  /** The catalog a directory listing yields: its matching files, sorted by
      name, each with its row count and chart. */
  function CatalogFiles(dir: seq<DirEntry>, csvDir: string, chartDir: string, chartSubdir: string, existing: set<string>)
    : (files: seq<CSVFileInfo>)
    requires DistinctNames(dir)
    ensures Ascending(files)
    ensures |files| == |Matching(dir)|
    ensures forall e :: e in dir && IsCatalogFile(e) ==> MakeInfo(csvDir, chartDir, chartSubdir, existing, e) in files
    ensures forall i :: 0 <= i < |files| ==> files[i].rowCount >= 0 && files[i].encoding == CatalogEncoding
  {
    var paths := SortByName(Matching(dir));
    var files := seq(|paths|, i requires 0 <= i < |paths| => MakeInfo(csvDir, chartDir, chartSubdir, existing, paths[i]));
    forall i, j | 0 <= i < j < |files| ensures NameLess(files[i].name, files[j].name) {
      assert files[i].name == paths[i].name && files[j].name == paths[j].name;
    }
    forall e | e in dir && IsCatalogFile(e) ensures MakeInfo(csvDir, chartDir, chartSubdir, existing, e) in files {
      assert e in paths;
      var k :| 0 <= k < |paths| && paths[k] == e;
      assert files[k] == MakeInfo(csvDir, chartDir, chartSubdir, existing, e);
    }
    files
  }

  /** Builds the catalog from a directory listing: the files in name order
      and the index from each name to its ordinal. */
  method LoadCatalog(dir: seq<DirEntry>, csvDir: string, chartDir: string, chartSubdir: string, existing: set<string>)
    returns (files: seq<CSVFileInfo>, index: map<string, nat>)
    requires DistinctNames(dir)
    ensures files == CatalogFiles(dir, csvDir, chartDir, chartSubdir, existing)
    ensures CatalogValid(files, index)
  {
    var paths := SortByName(Matching(dir));
    ghost var target := CatalogFiles(dir, csvDir, chartDir, chartSubdir, existing);
    files := [];
    index := map[];
    var k := 0;
    while k < |paths|
      invariant 0 <= k <= |paths|
      invariant files == target[..k]
      invariant IndexMatches(files, index)
    {
      var rows := CountRows(paths[k].text);
      var (chartPath, relative) := ResolveChartPath(chartDir, chartSubdir, paths[k].name, existing);
      var info := CSVFileInfo(paths[k].name, csvDir + "/" + paths[k].name, rows, chartPath, relative, CatalogEncoding);
      assert info == target[k];
      forall i | 0 <= i < k ensures files[i].name != info.name {
        NameLessIrreflexive(target[i].name);
      }
      files := files + [info];
      index := index[info.name := k];
      k := k + 1;
    }
  }

  // ---------------------------------------------------------------------------
  // Event validation
  // ---------------------------------------------------------------------------

  /** The rule an event breaks, the first one in checking order. */
  datatype ValidationError =
    | UnknownKind(kind: string)
    | UnknownStartFile(startFile: string)
    | UnknownEndFile(endFile: string)
    | StartRowOutOfRange(startRowCount: int)
    | EndRowOutOfRange(endRowCount: int)
    | Backwards

  predicate IndexInBounds(files: seq<CSVFileInfo>, index: map<string, nat>)
  {
    forall n :: n in index ==> index[n] < |files|
  }

  /** An event is valid when its kind is known, both files are in the
      catalog, both rows lie within their file's rows, and its start does not
      come after its end in (file ordinal, row) order. */
  predicate ValidEvent(files: seq<CSVFileInfo>, index: map<string, nat>,
                       kind: string, startFile: string, startRow: int, endFile: string, endRow: int)
    requires IndexInBounds(files, index)
  {
    && ParseKind(kind).Some?
    && startFile in index && endFile in index
    && 1 <= startRow <= files[index[startFile]].rowCount
    && 1 <= endRow <= files[index[endFile]].rowCount
    && (index[startFile] < index[endFile] || (index[startFile] == index[endFile] && startRow <= endRow))
  }

  function Validate(files: seq<CSVFileInfo>, index: map<string, nat>,
                    kind: string, startFile: string, startRow: int, endFile: string, endRow: int)
    : (r: Result<EventKind, ValidationError>)
    requires IndexInBounds(files, index)
    ensures r.Ok? <==> ValidEvent(files, index, kind, startFile, startRow, endFile, endRow)
    ensures r.Ok? ==> KindName(r.value) == kind
    ensures r == Err(UnknownKind(kind)) <==> ParseKind(kind).None?
    ensures r.Err? && r.error.UnknownStartFile? ==>
      ParseKind(kind).Some? && startFile !in index && r.error.startFile == startFile
    ensures r.Err? && r.error.UnknownEndFile? ==>
      ParseKind(kind).Some? && startFile in index && endFile !in index && r.error.endFile == endFile
    ensures r.Err? && r.error.StartRowOutOfRange? ==>
      ParseKind(kind).Some? && startFile in index && endFile in index
      && r.error.startRowCount == files[index[startFile]].rowCount
      && !(1 <= startRow <= files[index[startFile]].rowCount)
    ensures r.Err? && r.error.EndRowOutOfRange? ==>
      ParseKind(kind).Some? && startFile in index && endFile in index
      && 1 <= startRow <= files[index[startFile]].rowCount
      && r.error.endRowCount == files[index[endFile]].rowCount
      && !(1 <= endRow <= files[index[endFile]].rowCount)
    ensures r == Err(Backwards) ==>
      ParseKind(kind).Some? && startFile in index && endFile in index
      && 1 <= startRow <= files[index[startFile]].rowCount
      && 1 <= endRow <= files[index[endFile]].rowCount
  {
    if ParseKind(kind).None? then Err(UnknownKind(kind))
    else if startFile !in index then Err(UnknownStartFile(startFile))
    else if endFile !in index then Err(UnknownEndFile(endFile))
    else
      var startInfo := files[index[startFile]];
      var endInfo := files[index[endFile]];
      if !(1 <= startRow <= startInfo.rowCount) then Err(StartRowOutOfRange(startInfo.rowCount))
      else if !(1 <= endRow <= endInfo.rowCount) then Err(EndRowOutOfRange(endInfo.rowCount))
      else
        var startPos := index[startFile];
        var endPos := index[endFile];
        if startPos > endPos || (startPos == endPos && startRow > endRow) then Err(Backwards)
        else Ok(ParseKind(kind).value)
  }
}

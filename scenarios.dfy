/** The repository's own examples, worked through the model: a catalog of
    two three-row files, the events its tests reject, and the export of an
    overflow event that crosses from the first file into the second. The
    scenario holds for any two file names in name order; the names the
    tests use are one such pair. */
module Scenarios {
  import opened Common
  import opened Models
  import opened Catalog
  import opened Ranges
  import opened Flags
  import opened Export

  const FirstName: string := "Rec1901010000" + ".csv"
  const SecondName: string := "Rec1901010100" + ".csv"

  /** The names the tests use are in name order. */
  lemma TestNamesOrdered()
    ensures NameLess(FirstName, SecondName)
  {
    assert FirstName[..10] == SecondName[..10];
    NameLessAt(FirstName, SecondName, 10);
  }

  /** The catalog entry of a three-row file. */
  function Info(name: string): CSVFileInfo
  {
    CSVFileInfo(name, "csv/" + name, 3, None, Stem(name) + ".png", CatalogEncoding)
  }

  function TwoFiles(a: string, b: string): seq<CSVFileInfo>
  {
    [Info(a), Info(b)]
  }

  function TwoIndex(a: string, b: string): map<string, nat>
  {
    map[a := 0, b := 1]
  }

  lemma OrderedDiffer(a: string, b: string)
    requires NameLess(a, b)
    ensures a != b && Info(a).path != Info(b).path
  {
    NameLessIrreflexive(a);
    assert Info(a).path[4..] == a && Info(b).path[4..] == b;
  }

  /** Two files in name order form a valid catalog. */
  lemma TwoFileCatalogValid(a: string, b: string)
    requires NameLess(a, b)
    ensures CatalogValid(TwoFiles(a, b), TwoIndex(a, b))
  {
    OrderedDiffer(a, b);
  }

  /** A start row of 0 and an event running from the second file back into
      the first are both rejected, with the first rule each one breaks; an
      unknown kind is refused before anything else, and the event that
      crosses forward from the first file into the second is accepted. */
  lemma RejectedEvents(a: string, b: string)
    requires NameLess(a, b)
    ensures Validate(TwoFiles(a, b), TwoIndex(a, b), "lost", a, 0, a, 1) == Err(StartRowOutOfRange(3))
    ensures Validate(TwoFiles(a, b), TwoIndex(a, b), "lost", b, 2, a, 2) == Err(Backwards)
    ensures Validate(TwoFiles(a, b), TwoIndex(a, b), "drop", a, 1, a, 1) == Err(UnknownKind("drop"))
    ensures Validate(TwoFiles(a, b), TwoIndex(a, b), "overflow", a, 2, b, 2) == Ok(Overflow)
  {
    OrderedDiffer(a, b);
  }

  function CrossingEvent(a: string, b: string): EventRecord
  {
    EventRecord("e1", Overflow, a, 2, b, 2)
  }

  /** The crossing event's range in each file: from row 2 to the end of the
      first file, and from row 1 to row 2 of the second. */
  lemma CrossingRanges(a: string, b: string)
    requires NameLess(a, b)
    ensures CatalogValid(TwoFiles(a, b), TwoIndex(a, b))
    ensures FileRanges(TwoFiles(a, b), TwoIndex(a, b), [CrossingEvent(a, b)])
      == Ok(map[a := [FileRange(Overflow, 2, 3)], b := [FileRange(Overflow, 1, 2)]])
  {
    TwoFileCatalogValid(a, b);
    OrderedDiffer(a, b);
    var files, index, events := TwoFiles(a, b), TwoIndex(a, b), [CrossingEvent(a, b)];
    assert events[..0] == [];
    assert RangesOf(files, index, events, 0) == [FileRange(Overflow, 2, 3)];
    assert RangesOf(files, index, events, 1) == [FileRange(Overflow, 1, 2)];
    var expected := map[a := [FileRange(Overflow, 2, 3)], b := [FileRange(Overflow, 1, 2)]];
    var m := FileRanges(files, index, events).value;
    assert m.Keys == expected.Keys;
    assert m == expected;
  }

  /** The flag columns of the crossing event: [0,1,1] in the first file and
      [1,1,0] in the second, with no lost flags. */
  lemma CrossingFlags()
    ensures FlagColumn([FileRange(Overflow, 2, 3)], Overflow, 3) == [0, 1, 1]
    ensures FlagColumn([FileRange(Overflow, 1, 2)], Overflow, 3) == [1, 1, 0]
    ensures FlagColumn([FileRange(Overflow, 2, 3)], Lost, 3) == [0, 0, 0]
    ensures FlagColumn([FileRange(Overflow, 1, 2)], Lost, 3) == [0, 0, 0]
  {
    var r1, r2 := [FileRange(Overflow, 2, 3)], [FileRange(Overflow, 1, 2)];
    assert r1[..0] == [] && r2[..0] == [];
  }

  /** The rows of the two files, as the export reads them. */
  function FirstTable(): Table
  {
    [["100", "10"], ["110", "11"], ["120", "12"]]
  }

  function SecondTable(): Table
  {
    [["130", "13"], ["140", "14"], ["150", "15"]]
  }

  function TwoFileDisk(a: string, b: string): map<string, SourceFile>
  {
    map[Info(a).path := SourceFile(map["utf-8" := FirstTable()]),
        Info(b).path := SourceFile(map["utf-8" := SecondTable()])]
  }

  /** The export of the crossing event into `out`. */
  function CrossingOutcome(a: string, b: string, out: string): ExportOutcome
    requires NameLess(a, b)
  {
    TwoFileCatalogValid(a, b);
    ExportMarked(TwoFiles(a, b), TwoIndex(a, b), [CrossingEvent(a, b)], TwoFileDisk(a, b), out)
  }

  /** Under ranges that are all overflow ranges and touch the file, only
      the overflow kind touches it, and some row carries its flag. */
  lemma OverflowOnlyFlags(r: seq<FileRange>, table: Table)
    requires forall j :: 0 <= j < |r| ==> r[j].kind == Overflow
    requires AnyTouches(r, |table|)
    ensures |table| > 0
    ensures AnyTouchesKind(r, Overflow, |table|) && !AnyTouchesKind(r, Lost, |table|)
    ensures |Select(Annotate(table, FlagColumn(r, Overflow, |table|), FlagColumn(r, Lost, |table|)), Overflow)| > 0
  {
    var n := |table|;
    var rows := Annotate(table, FlagColumn(r, Overflow, n), FlagColumn(r, Lost, n));
    var j :| 0 <= j < |r| && Touches(r[j], n);
    assert AnyTouchesKind(r, Overflow, n);
    TouchesIffFlagged(r, Overflow, n);
    var i :| 0 <= i < n && FlagColumn(r, Overflow, n)[i] == 1;
    assert FlagOf(rows[i], Overflow) == 1;
    SelectEmptyIff(rows, Overflow);
  }

  /** A file that only overflow ranges touch: its annotated copy, then a
      non-empty overflow subset, and no lost subset. */
  lemma OverflowOnlyFile(info: CSVFileInfo, r: seq<FileRange>, disk: map<string, SourceFile>, out: string,
                         table: Table)
    requires forall j :: 0 <= j < |r| ==> r[j].kind == Overflow
    requires AnyTouches(r, |table|)
    requires ReadTable(info, disk) == Ok(table)
    ensures var n := |table|;
      var rows := Annotate(table, FlagColumn(r, Overflow, n), FlagColumn(r, Lost, n));
      && |Select(rows, Overflow)| > 0
      && ExportFile(info, r, disk, out)
         == Ok([Output(AnnotatedPath(out, info.name), rows),
                Output(OverflowPath(out, info.name), Select(rows, Overflow))])
  {
    OverflowOnlyFlags(r, table);
    var n := |table|;
    var rows := Annotate(table, FlagColumn(r, Overflow, n), FlagColumn(r, Lost, n));
    var annotated := Output(AnnotatedPath(out, info.name), rows);
    var overflow := Output(OverflowPath(out, info.name), Select(rows, Overflow));
    assert Subset(OverflowPath(out, info.name), rows, Overflow, true) == [overflow];
    assert Subset(LostPath(out, info.name), rows, Lost, false) == [];
    assert FileOutputs(out, info.name, r, table) == [annotated] + [overflow] + [];
    assert [annotated] + [overflow] + [] == [annotated, overflow];
  }

  function FirstRows(): seq<FlaggedRow>
  {
    [FlaggedRow(["100", "10"], 0, 0), FlaggedRow(["110", "11"], 1, 0), FlaggedRow(["120", "12"], 1, 0)]
  }

  function SecondRows(): seq<FlaggedRow>
  {
    [FlaggedRow(["130", "13"], 1, 0), FlaggedRow(["140", "14"], 1, 0), FlaggedRow(["150", "15"], 0, 0)]
  }

  /** The first file's outputs: its annotated copy, then the overflow subset
      holding its rows 2 and 3. */
  function FirstOutputs(a: string, out: string): seq<Output>
  {
    [Output(AnnotatedPath(out, a), FirstRows()), Output(OverflowPath(out, a), FirstRows()[1..])]
  }

  /** The second file's outputs: its annotated copy, then the overflow
      subset holding its rows 1 and 2. */
  function SecondOutputs(b: string, out: string): seq<Output>
  {
    [Output(AnnotatedPath(out, b), SecondRows()), Output(OverflowPath(out, b), SecondRows()[..2])]
  }

  /** The first file: rows 2 and 3 flagged, and both in its overflow subset. */
  lemma FirstFileExport(a: string, b: string, out: string)
    requires NameLess(a, b)
    ensures ExportFile(Info(a), [FileRange(Overflow, 2, 3)], TwoFileDisk(a, b), out) == Ok(FirstOutputs(a, out))
  {
    OrderedDiffer(a, b);
    CrossingFlags();
    var rows := FirstRows();
    assert Annotate(FirstTable(), [0, 1, 1], [0, 0, 0]) == rows;
    assert Select(rows, Overflow) == rows[1..] by {
      assert rows[1..][1..][1..] == [];
    }
    assert ReadTable(Info(a), TwoFileDisk(a, b)) == Ok(FirstTable());
    OverflowOnlyFile(Info(a), [FileRange(Overflow, 2, 3)], TwoFileDisk(a, b), out, FirstTable());
  }

  /** The second file: rows 1 and 2 flagged, and both in its overflow subset. */
  lemma SecondFileExport(a: string, b: string, out: string)
    requires NameLess(a, b)
    ensures ExportFile(Info(b), [FileRange(Overflow, 1, 2)], TwoFileDisk(a, b), out) == Ok(SecondOutputs(b, out))
  {
    OrderedDiffer(a, b);
    CrossingFlags();
    var rows := SecondRows();
    assert Annotate(SecondTable(), [1, 1, 0], [0, 0, 0]) == rows;
    assert Select(rows, Overflow) == rows[..2] by {
      assert rows[1..][1..][1..] == [];
    }
    assert ReadTable(Info(b), TwoFileDisk(a, b)) == Ok(SecondTable());
    OverflowOnlyFile(Info(b), [FileRange(Overflow, 1, 2)], TwoFileDisk(a, b), out, SecondTable());
  }

  /** The export loop over a two-file catalog whose files both export. */
  lemma TwoFileLoop(files: seq<CSVFileInfo>, byFile: map<string, seq<FileRange>>,
                    disk: map<string, SourceFile>, out: string, outs1: seq<Output>, outs2: seq<Output>)
    requires |files| == 2
    requires ExportFile(files[0], At(byFile, files[0].name), disk, out) == Ok(outs1)
    requires ExportFile(files[1], At(byFile, files[1].name), disk, out) == Ok(outs2)
    ensures ExportLoop(files, byFile, disk, out, []) == Exported(outs1 + outs2)
  {
    assert files[1..][0] == files[1] && files[1..][1..] == [];
    assert ExportLoop(files[1..], byFile, disk, out, outs1) == Exported(outs1 + outs2);
    assert [] + outs1 == outs1;
  }

  /** Exporting the crossing event writes four files: the first file's
      annotated copy and overflow subset, then the second file's. */
  lemma CrossingExport(a: string, b: string, out: string)
    requires NameLess(a, b)
    ensures CrossingOutcome(a, b, out) == Exported(FirstOutputs(a, out) + SecondOutputs(b, out))
  {
    CrossingRanges(a, b);
    var files, disk := TwoFiles(a, b), TwoFileDisk(a, b);
    var byFile := map[a := [FileRange(Overflow, 2, 3)], b := [FileRange(Overflow, 1, 2)]];
    OrderedDiffer(a, b);
    assert At(byFile, a) == [FileRange(Overflow, 2, 3)] && At(byFile, b) == [FileRange(Overflow, 1, 2)];
    FirstFileExport(a, b, out);
    SecondFileExport(a, b, out);
    TwoFileLoop(files, byFile, disk, out, FirstOutputs(a, out), SecondOutputs(b, out));
  }

  lemma StemOfCsv(stem: string)
    ensures Stem(stem + ".csv") == stem
  {
    assert (stem + ".csv")[..|stem|] == stem;
  }

  /** The paths of the first file's outputs for the names the tests use. */
  lemma FirstTestPaths()
    ensures AnnotatedPath("out", FirstName) == "out/Rec1901010000_annotated.csv"
    ensures OverflowPath("out", FirstName) == "out/overflow/Rec1901010000_overflow.csv"
  {
    StemOfCsv("Rec1901010000");
  }

  /** The paths of the second file's outputs for the names the tests use. */
  lemma SecondTestPaths()
    ensures AnnotatedPath("out", SecondName) == "out/Rec1901010100_annotated.csv"
    ensures OverflowPath("out", SecondName) == "out/overflow/Rec1901010100_overflow.csv"
  {
    StemOfCsv("Rec1901010100");
  }
}

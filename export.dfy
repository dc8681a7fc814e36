/** The export of marked data: for every catalog file touched by an event,
    an annotated copy with `overflow` and `lost` flag columns, and for each
    kind that flags a row, a subset holding exactly the flagged rows. */
module Export {
  import opened Common
  import opened Models
  import opened Catalog
  import opened Ranges
  import opened Flags

  /** A data row's cells, and a file's data rows (header excluded). */
  type Row = seq<string>
  type Table = seq<Row>

  /** A file as the export finds it on disk: the table it parses to under
      each encoding that decodes it. */
  datatype SourceFile = SourceFile(decoded: map<string, Table>)

  /** The encodings the export tries, in order. */
  const ExportEncodings: seq<string> := ["utf-8", "gbk", "gb2312", "latin-1"]

  /** A data row with the two appended flag columns. */
  datatype FlaggedRow = FlaggedRow(cells: Row, overflow: int, lost: int)

  /** A written file: its path and its data rows. */
  datatype Output = Output(path: string, rows: seq<FlaggedRow>)

  datatype ExportError =
    | EmptyCatalog
    | UnknownEventFile(eventFile: string)
    | FileNotFound(missing: string)
    | Undecodable(undecodable: string)

  /** An export either completes with the files it wrote, or stops at an
      error, leaving on disk the files written before it. */
  datatype ExportOutcome =
    | Exported(written: seq<Output>)
    | Failed(error: ExportError, partial: seq<Output>)

  /** Reading a file with the encoding fallback: the table of the first
      encoding that decodes it. */
  function ReadTable(info: CSVFileInfo, disk: map<string, SourceFile>): (r: Result<Table, ExportError>)
    ensures r == Err(FileNotFound(info.name)) <==> info.path !in disk
    ensures r == Err(Undecodable(info.name)) <==>
      info.path in disk && forall k :: 0 <= k < |ExportEncodings| ==> ExportEncodings[k] !in disk[info.path].decoded
    ensures r.Ok? ==> info.path in disk && exists k :: (0 <= k < |ExportEncodings|
      && ExportEncodings[k] in disk[info.path].decoded
      && r.value == disk[info.path].decoded[ExportEncodings[k]]
      && forall j :: 0 <= j < k ==> ExportEncodings[j] !in disk[info.path].decoded)
  {
    if info.path !in disk then Err(FileNotFound(info.name))
    else
      var src := disk[info.path];
      match FirstAccepted(ExportEncodings, src.decoded.Keys)
      case None => Err(Undecodable(info.name))
      case Some(k) => Ok(src.decoded[ExportEncodings[k]])
  }

  /** The export's read loop: a missing file fails at once, and each
      encoding is tried in order until one decodes the file. */
  method ReadWithFallback(info: CSVFileInfo, disk: map<string, SourceFile>) returns (r: Result<Table, ExportError>)
    ensures r == ReadTable(info, disk)
  {
    if info.path !in disk {
      return Err(FileNotFound(info.name));
    }
    var decoded := disk[info.path].decoded;
    var k := 0;
    while k < |ExportEncodings|
      invariant 0 <= k <= |ExportEncodings|
      invariant forall j :: 0 <= j < k ==> ExportEncodings[j] !in decoded
    {
      if ExportEncodings[k] in decoded {
        var first := FirstAccepted(ExportEncodings, decoded.Keys);
        assert first == Some(k);
        return Ok(decoded[ExportEncodings[k]]);
      }
      k := k + 1;
    }
    return Err(Undecodable(info.name));
  }

  /** The table with the two flag columns appended. */
  function Annotate(table: Table, overflow: seq<int>, lost: seq<int>): (rows: seq<FlaggedRow>)
    requires |overflow| == |table| && |lost| == |table|
    ensures |rows| == |table|
    ensures forall i :: 0 <= i < |rows| ==>
      rows[i].cells == table[i] && rows[i].overflow == overflow[i] && rows[i].lost == lost[i]
  {
    seq(|table|, i requires 0 <= i < |table| => FlaggedRow(table[i], overflow[i], lost[i]))
  }

  function FlagOf(row: FlaggedRow, kind: EventKind): int
  {
    match kind
    case Overflow => row.overflow
    case Lost => row.lost
  }

  /** The rows whose flag of the given kind is 1, in their order. */
  function Select(rows: seq<FlaggedRow>, kind: EventKind): (r: seq<FlaggedRow>)
    ensures forall x :: x in r ==> x in rows && FlagOf(x, kind) == 1
    ensures forall i :: 0 <= i < |rows| && FlagOf(rows[i], kind) == 1 ==> rows[i] in r
  {
    if |rows| == 0 then []
    else (if FlagOf(rows[0], kind) == 1 then [rows[0]] else []) + Select(rows[1..], kind)
  }

  /** A selection is never longer than the rows it selects from. */
  lemma {:induction false} SelectLength(rows: seq<FlaggedRow>, kind: EventKind)
    ensures |Select(rows, kind)| <= |rows|
  {
    if |rows| > 0 {
      SelectLength(rows[1..], kind);
    }
  }

  /** Selection keeps the rows' order: selecting from a concatenation is
      concatenating the selections. */
  lemma {:induction false} SelectAppend(a: seq<FlaggedRow>, b: seq<FlaggedRow>, kind: EventKind)
    ensures Select(a + b, kind) == Select(a, kind) + Select(b, kind)
  {
    if |a| == 0 {
      assert a + b == b;
    } else {
      assert (a + b)[1..] == a[1..] + b;
      SelectAppend(a[1..], b, kind);
    }
  }

  /** The selection is empty exactly when no row carries the flag. */
  lemma {:induction false} SelectEmptyIff(rows: seq<FlaggedRow>, kind: EventKind)
    ensures |Select(rows, kind)| > 0 <==> exists i :: 0 <= i < |rows| && FlagOf(rows[i], kind) == 1
  {
    if |Select(rows, kind)| > 0 {
      var x := Select(rows, kind)[0];
      assert x in rows;
    }
  }

  function AnnotatedPath(outDir: string, name: string): string
  {
    outDir + "/" + Stem(name) + "_annotated.csv"
  }

  function OverflowPath(outDir: string, name: string): string
  {
    outDir + "/overflow/" + Stem(name) + "_overflow.csv"
  }

  function LostPath(outDir: string, name: string): string
  {
    outDir + "/lost/" + Stem(name) + "_lost.csv"
  }

  /** The subset file of one kind: written when a range of that kind
      touched the file and some row carries its flag. */
  function Subset(path: string, rows: seq<FlaggedRow>, kind: EventKind, touched: bool): seq<Output>
  {
    if touched && |Select(rows, kind)| > 0 then [Output(path, Select(rows, kind))] else []
  }

  /** The files written for one data file with rows that its ranges touch:
      the annotated copy, then the overflow subset, then the lost subset. */
  function FileOutputs(outDir: string, name: string, ranges: seq<FileRange>, table: Table): seq<Output>
  {
    var n := |table|;
    var rows := Annotate(table, FlagColumn(ranges, Overflow, n), FlagColumn(ranges, Lost, n));
    [Output(AnnotatedPath(outDir, name), rows)]
    + Subset(OverflowPath(outDir, name), rows, Overflow, AnyTouchesKind(ranges, Overflow, n))
    + Subset(LostPath(outDir, name), rows, Lost, AnyTouchesKind(ranges, Lost, n))
  }

  /** What exporting one file writes, given its ranges. */
  function ExportFile(info: CSVFileInfo, ranges: seq<FileRange>, disk: map<string, SourceFile>, outDir: string)
    : Result<seq<Output>, ExportError>
  {
    if |ranges| == 0 then Ok([])
    else match ReadTable(info, disk)
      case Err(e) => Err(e)
      case Ok(table) =>
        if |table| == 0 || !AnyTouches(ranges, |table|) then Ok([])
        else Ok(FileOutputs(outDir, info.name, ranges, table))
  }

  /** The files, in catalog order, each exported in turn after `written`. */
  function ExportLoop(files: seq<CSVFileInfo>, byFile: map<string, seq<FileRange>>,
                      disk: map<string, SourceFile>, outDir: string, written: seq<Output>): ExportOutcome
    decreases |files|
  {
    if |files| == 0 then Exported(written)
    else match ExportFile(files[0], At(byFile, files[0].name), disk, outDir)
      case Err(e) => Failed(e, written)
      case Ok(outs) => ExportLoop(files[1..], byFile, disk, outDir, written + outs)
  }

  /** The whole export: refused on an empty catalog, then the ranges of all
      events, then every file in catalog order. */
  function ExportMarked(files: seq<CSVFileInfo>, index: map<string, nat>, events: seq<EventRecord>,
                  disk: map<string, SourceFile>, outDir: string): ExportOutcome
    requires IndexMatches(files, index)
  {
    if |files| == 0 then Failed(EmptyCatalog, [])
    else match FileRanges(files, index, events)
      case Err(name) => Failed(UnknownEventFile(name), [])
      case Ok(byFile) => ExportLoop(files, byFile, disk, outDir, [])
  }

  /** In the annotated copy, row i carries a kind's flag exactly when a
      range of that kind covers it after clipping. */
  lemma AnnotatedFlags(ranges: seq<FileRange>, table: Table)
    ensures var n := |table|;
      var rows := Annotate(table, FlagColumn(ranges, Overflow, n), FlagColumn(ranges, Lost, n));
      forall i :: 0 <= i < n ==>
        && rows[i].cells == table[i]
        && rows[i].overflow == (if Flagged(ranges, Overflow, n, i) then 1 else 0)
        && rows[i].lost == (if Flagged(ranges, Lost, n, i) then 1 else 0)
  {
    var n := |table|;
    forall i | 0 <= i < n
      ensures FlagColumn(ranges, Overflow, n)[i] == (if Flagged(ranges, Overflow, n, i) then 1 else 0)
      ensures FlagColumn(ranges, Lost, n)[i] == (if Flagged(ranges, Lost, n, i) then 1 else 0)
    {
      FlagsExact(ranges, Overflow, n, i);
      FlagsExact(ranges, Lost, n, i);
    }
  }

  /** A kind's subset is written exactly when some row of the annotated copy
      carries that kind's flag, and it holds the flagged rows in order. */
  lemma SubsetWrittenIff(path: string, ranges: seq<FileRange>, table: Table, kind: EventKind)
    ensures var n := |table|;
      var rows := Annotate(table, FlagColumn(ranges, Overflow, n), FlagColumn(ranges, Lost, n));
      && (Subset(path, rows, kind, AnyTouchesKind(ranges, kind, n)) != []
          <==> exists i :: 0 <= i < n && FlagOf(rows[i], kind) == 1)
      && (Subset(path, rows, kind, AnyTouchesKind(ranges, kind, n)) != [] ==>
          Subset(path, rows, kind, AnyTouchesKind(ranges, kind, n)) == [Output(path, Select(rows, kind))])
  {
    var n := |table|;
    var rows := Annotate(table, FlagColumn(ranges, Overflow, n), FlagColumn(ranges, Lost, n));
    TouchesIffFlagged(ranges, kind, n);
    SelectEmptyIff(rows, kind);
    if exists i :: 0 <= i < n && FlagColumn(ranges, kind, n)[i] == 1 {
      var i :| 0 <= i < n && FlagColumn(ranges, kind, n)[i] == 1;
      assert FlagOf(rows[i], kind) == 1;
    }
    if exists i :: 0 <= i < n && FlagOf(rows[i], kind) == 1 {
      var i :| 0 <= i < n && FlagOf(rows[i], kind) == 1;
      assert FlagColumn(ranges, kind, n)[i] == 1;
    }
  }

  /** What one file's export writes: nothing for a file without ranges,
      without data rows, or whose ranges all clip to nothing; a read failure
      is passed on; otherwise the outputs built from the table the first
      decodable encoding gives. */
  lemma ExportFileCases(info: CSVFileInfo, ranges: seq<FileRange>, disk: map<string, SourceFile>, outDir: string)
    ensures |ranges| == 0 ==> ExportFile(info, ranges, disk, outDir) == Ok([])
    ensures |ranges| > 0 && ReadTable(info, disk).Err? ==>
      ExportFile(info, ranges, disk, outDir) == Err(ReadTable(info, disk).error)
    ensures ExportFile(info, ranges, disk, outDir).Ok? && ExportFile(info, ranges, disk, outDir).value != [] ==>
      && |ranges| > 0 && ReadTable(info, disk).Ok?
      && |ReadTable(info, disk).value| > 0
      && AnyTouches(ranges, |ReadTable(info, disk).value|)
      && ExportFile(info, ranges, disk, outDir).value == FileOutputs(outDir, info.name, ranges, ReadTable(info, disk).value)
    ensures |ranges| > 0 && ReadTable(info, disk).Ok? && |ReadTable(info, disk).value| > 0 ==>
      (ExportFile(info, ranges, disk, outDir).value != [] <==>
        exists i :: 0 <= i < |ReadTable(info, disk).value| &&
          (Flagged(ranges, Overflow, |ReadTable(info, disk).value|, i) || Flagged(ranges, Lost, |ReadTable(info, disk).value|, i)))
  {
    if |ranges| > 0 && ReadTable(info, disk).Ok? && |ReadTable(info, disk).value| > 0 {
      var n := |ReadTable(info, disk).value|;
      TouchesIffEitherKind(ranges, n);
      TouchesIffFlagged(ranges, Overflow, n);
      TouchesIffFlagged(ranges, Lost, n);
      if AnyTouches(ranges, n) {
        var i :| 0 <= i < n && (FlagColumn(ranges, Overflow, n)[i] == 1 || FlagColumn(ranges, Lost, n)[i] == 1);
        FlagsExact(ranges, Overflow, n, i);
        FlagsExact(ranges, Lost, n, i);
      }
      if exists i :: 0 <= i < n && (Flagged(ranges, Overflow, n, i) || Flagged(ranges, Lost, n, i)) {
        var i :| 0 <= i < n && (Flagged(ranges, Overflow, n, i) || Flagged(ranges, Lost, n, i));
        FlagsExact(ranges, Overflow, n, i);
        FlagsExact(ranges, Lost, n, i);
      }
    }
  }

  /** One file's outputs: at most three, the annotated copy first and one
      row per data row, then only subsets of the two kinds. */
  lemma FileOutputsShape(outDir: string, name: string, ranges: seq<FileRange>, table: Table)
    ensures var outs := FileOutputs(outDir, name, ranges, table);
      && 1 <= |outs| <= 3
      && outs[0].path == AnnotatedPath(outDir, name)
      && |outs[0].rows| == |table|
      && forall k :: 1 <= k < |outs| ==>
           outs[k] == Output(OverflowPath(outDir, name), Select(outs[0].rows, Overflow))
           || outs[k] == Output(LostPath(outDir, name), Select(outs[0].rows, Lost))
  {
  }

  /** An empty catalog is refused before anything is written, and so is an
      event naming a file the catalog does not hold. */
  lemma ExportRefusals(files: seq<CSVFileInfo>, index: map<string, nat>, events: seq<EventRecord>,
                       disk: map<string, SourceFile>, outDir: string)
    requires IndexMatches(files, index)
    ensures |files| == 0 ==> ExportMarked(files, index, events, disk, outDir) == Failed(EmptyCatalog, [])
    ensures |files| > 0 && !KnownFiles(events, index) ==>
      ExportMarked(files, index, events, disk, outDir).Failed?
      && ExportMarked(files, index, events, disk, outDir).error.UnknownEventFile?
      && ExportMarked(files, index, events, disk, outDir).error.eventFile !in index
      && ExportMarked(files, index, events, disk, outDir).partial == []
  {
  }

  /** The files an outcome has put on disk, whether or not it completed. */
  function WrittenBy(r: ExportOutcome): seq<Output>
  {
    match r
    case Exported(written) => written
    case Failed(_, partial) => partial
  }

  /** The paths under which one file's export may write. */
  predicate OutputPathOf(outDir: string, name: string, path: string)
  {
    path == AnnotatedPath(outDir, name) || path == OverflowPath(outDir, name) || path == LostPath(outDir, name)
  }

  /** The output belongs to a catalog file that some event reaches. */
  predicate ForReachedFile(files: seq<CSVFileInfo>, byFile: map<string, seq<FileRange>>, outDir: string, o: Output)
  {
    exists f :: 0 <= f < |files| && |At(byFile, files[f].name)| > 0 && OutputPathOf(outDir, files[f].name, o.path)
  }

  /** The export loop only appends to what was written before it, and every
      file it writes belongs to a catalog file that some event reaches. */
  lemma {:induction false} ExportLoopOrigin(files: seq<CSVFileInfo>, byFile: map<string, seq<FileRange>>,
                                            disk: map<string, SourceFile>, outDir: string, written: seq<Output>)
    ensures written <= WrittenBy(ExportLoop(files, byFile, disk, outDir, written))
    ensures forall k :: |written| <= k < |WrittenBy(ExportLoop(files, byFile, disk, outDir, written))| ==>
      ForReachedFile(files, byFile, outDir, WrittenBy(ExportLoop(files, byFile, disk, outDir, written))[k])
    decreases |files|
  {
    if |files| > 0 {
      var r := ExportFile(files[0], At(byFile, files[0].name), disk, outDir);
      if r.Ok? {
        var outs := r.value;
        ExportFileCases(files[0], At(byFile, files[0].name), disk, outDir);
        if outs != [] {
          FileOutputsShape(outDir, files[0].name, At(byFile, files[0].name), ReadTable(files[0], disk).value);
        }
        ExportLoopOrigin(files[1..], byFile, disk, outDir, written + outs);
        var all := WrittenBy(ExportLoop(files, byFile, disk, outDir, written));
        var rest := WrittenBy(ExportLoop(files[1..], byFile, disk, outDir, written + outs));
        assert all == rest;
        forall k | |written| <= k < |all|
          ensures ForReachedFile(files, byFile, outDir, all[k])
        {
          if k < |written + outs| {
            assert all[k] == outs[k - |written|];
            assert OutputPathOf(outDir, files[0].name, all[k].path);
          } else {
            assert ForReachedFile(files[1..], byFile, outDir, rest[k]);
            var f :| 0 <= f < |files[1..]| && |At(byFile, files[1..][f].name)| > 0
              && OutputPathOf(outDir, files[1..][f].name, rest[k].path);
            assert files[1..][f] == files[f + 1];
          }
        }
      }
    }
  }
}

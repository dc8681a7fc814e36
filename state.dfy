/** The annotation manager: the catalog of data files, the event list and
    its persisted snapshot, and the operations the web layer calls on them. */
module State {
  import opened Common
  import opened Models
  import opened Catalog
  import opened Ranges
  import opened Flags
  import opened Export

  datatype ManagerError =
    | Invalid(reason: ValidationError)
    | EventNotFound(id: string)
    | UnknownKindName(name: string)
    | CorruptSnapshot

  /** The events whose id differs from `id`, in their order. */
  function Without(events: seq<EventRecord>, id: string): (r: seq<EventRecord>)
    ensures |r| <= |events|
    ensures forall e :: e in r <==> e in events && e.id != id
  {
    if |events| == 0 then []
    else (if events[0].id != id then [events[0]] else []) + Without(events[1..], id)
  }

  /** Filtering keeps order: it distributes over concatenation. */
  lemma {:induction false} WithoutAppend(a: seq<EventRecord>, b: seq<EventRecord>, id: string)
    ensures Without(a + b, id) == Without(a, id) + Without(b, id)
  {
    if |a| == 0 {
      assert a + b == b;
    } else {
      assert (a + b)[1..] == a[1..] + b;
      WithoutAppend(a[1..], b, id);
    }
  }

  /** Filtering an id no event has leaves the list as it was. */
  lemma {:induction false} WithoutNoMatch(events: seq<EventRecord>, id: string)
    requires forall i :: 0 <= i < |events| ==> events[i].id != id
    ensures Without(events, id) == events
  {
    if |events| > 0 {
      var rest := events[1..];
      forall i | 0 <= i < |rest| ensures rest[i].id != id {
        assert rest[i] == events[i + 1];
      }
      WithoutNoMatch(rest, id);
      assert events == [events[0]] + rest;
    }
  }

  /** Filtering an id some event has makes the list shorter. */
  lemma {:induction false} WithoutDropsMatch(events: seq<EventRecord>, id: string, k: nat)
    requires k < |events| && events[k].id == id
    ensures |Without(events, id)| < |events|
  {
    var rest := events[1..];
    assert Without(events, id) == (if events[0].id != id then [events[0]] else []) + Without(rest, id);
    if k > 0 {
      assert rest[k - 1] == events[k];
      WithoutDropsMatch(rest, id, k - 1);
    }
  }

  /** Filtering leaves the list as long as it was exactly when no event has
      the id, and then it leaves the list as it was. */
  lemma WithoutKeepsAllIff(events: seq<EventRecord>, id: string)
    ensures |Without(events, id)| == |events| <==> forall i :: 0 <= i < |events| ==> events[i].id != id
    ensures (forall i :: 0 <= i < |events| ==> events[i].id != id) ==> Without(events, id) == events
  {
    if forall i :: 0 <= i < |events| ==> events[i].id != id {
      WithoutNoMatch(events, id);
    } else {
      var k :| 0 <= k < |events| && events[k].id == id;
      WithoutDropsMatch(events, id, k);
    }
  }

  /** Ids are pairwise distinct. */
  predicate UniqueIds(events: seq<EventRecord>)
  {
    forall i, j :: 0 <= i < j < |events| ==> events[i].id != events[j].id
  }

  /** Every event passes validation against the catalog. */
  predicate AllValid(files: seq<CSVFileInfo>, index: map<string, nat>, events: seq<EventRecord>)
    requires IndexInBounds(files, index)
  {
    forall i :: 0 <= i < |events| ==>
      ValidEvent(files, index, KindName(events[i].kind), events[i].startFile, events[i].startRow,
                 events[i].endFile, events[i].endRow)
  }

  /** Events that all pass validation name only catalog files, so the range
      expansion of the export cannot fail on them. */
  lemma ValidEventsExpand(files: seq<CSVFileInfo>, index: map<string, nat>, events: seq<EventRecord>)
    requires IndexMatches(files, index)
    requires AllValid(files, index, events)
    ensures FileRanges(files, index, events).Ok?
  {
    assert KnownFiles(events, index);
  }

  /** Validity does not depend on the kind, so retyping an event keeps a
      valid list valid. */
  lemma RetypeKeepsValid(files: seq<CSVFileInfo>, index: map<string, nat>, events: seq<EventRecord>,
                         i: nat, k: EventKind)
    requires IndexInBounds(files, index) && i < |events|
    requires AllValid(files, index, events)
    ensures AllValid(files, index, events[i := events[i].(kind := k)])
  {
    var updated := events[i := events[i].(kind := k)];
    forall j | 0 <= j < |updated|
      ensures ValidEvent(files, index, KindName(updated[j].kind), updated[j].startFile, updated[j].startRow,
                         updated[j].endFile, updated[j].endRow)
    {
      assert ValidEvent(files, index, KindName(events[j].kind), events[j].startFile, events[j].startRow,
                        events[j].endFile, events[j].endRow);
    }
  }

  class AnnotationManager {
    const csvDir: string
    const chartDir: string
    /** The directory holding the events file; the default export target. */
    const markedDir: string
    /** The chart subdirectory, "" when charts sit directly in `chartDir`. */
    const chartSubdir: string

    var files: seq<CSVFileInfo>
    var fileIndex: map<string, nat>
    var events: seq<EventRecord>
    /** The contents of the events file: None while it does not exist. */
    var snapshot: Option<seq<Dict>>

    /** The catalog is sorted by name and the index matches it. */
    predicate Valid()
      reads this
    {
      CatalogValid(files, fileIndex)
    }

    /** The events file holds exactly the in-memory event list. */
    predicate Persisted()
      reads this
    {
      LoadEvents(snapshot) == Some(events)
    }

    /** A manager with an empty catalog and event list, over an events file
        in the state `snapshot` describes. */
    constructor(csvDir: string, chartDir: string, markedDir: string, chartSubdir: string, snapshot: Option<seq<Dict>>)
      ensures this.csvDir == csvDir && this.chartDir == chartDir
      ensures this.markedDir == markedDir && this.chartSubdir == chartSubdir
      ensures files == [] && fileIndex == map[] && events == [] && this.snapshot == snapshot
      ensures Valid()
    {
      this.csvDir := csvDir;
      this.chartDir := chartDir;
      this.markedDir := markedDir;
      this.chartSubdir := chartSubdir;
      files := [];
      fileIndex := map[];
      events := [];
      this.snapshot := snapshot;
    }

    /** Start-up: the catalog from the data directory listing, then the
        event list from the events file. An absent file gives no events; an
        entry that does not rebuild a record is an error, raised after the
        catalog was already replaced. */
    method Initialize(dir: seq<DirEntry>, existingCharts: set<string>) returns (err: Option<ManagerError>)
      requires DistinctNames(dir)
      modifies this
      ensures files == CatalogFiles(dir, csvDir, chartDir, chartSubdir, existingCharts)
      ensures Valid()
      ensures snapshot == old(snapshot)
      ensures err.None? <==> LoadEvents(snapshot).Some?
      ensures err.None? ==> events == LoadEvents(snapshot).value && Persisted()
      ensures err.Some? ==> err.value == CorruptSnapshot && events == old(events)
    {
      files, fileIndex := LoadCatalog(dir, csvDir, chartDir, chartSubdir, existingCharts);
      var loaded := LoadEvents(snapshot);
      if loaded.None? {
        return Some(CorruptSnapshot);
      }
      events := loaded.value;
      return None;
    }

    /** Writes the event list to the events file. */
    method Persist()
      modifies this
      ensures snapshot == Some(Models.SaveEvents(events))
      ensures files == old(files) && fileIndex == old(fileIndex) && events == old(events)
      ensures Persisted()
    {
      snapshot := Some(Models.SaveEvents(events));
      SnapshotRoundTrip(events);
    }

    /** The public projection of every catalog file, in catalog order. */
    function ListFiles(): (r: seq<Dict>)
      reads this
      ensures |r| == |files|
      ensures forall i :: 0 <= i < |r| ==> r[i] == ToPublicDict(files[i])
      ensures forall i :: 0 <= i < |r| ==>
        r[i].Keys == {"name", "row_count", "chart_path"} && r[i]["name"] == Str(files[i].name)
        && r[i]["row_count"] == Int(files[i].rowCount)
    {
      seq(|files|, i requires 0 <= i < |files| reads this => ToPublicDict(files[i]))
    }

    /** The dictionary form of every event, in list order; loading it back
        gives the event list again. */
    function ListEvents(): (r: seq<Dict>)
      reads this
      ensures |r| == |events|
      ensures LoadEvents(Some(r)) == Some(events)
    {
      SnapshotRoundTrip(events);
      Models.SaveEvents(events)
    }

    /** Adds an event under a fresh id after validating it, and persists the
        list. A rejected event changes nothing. */
    method AddEvent(kind: string, startFile: string, startRow: int, endFile: string, endRow: int, freshId: string)
      returns (r: Result<EventRecord, ManagerError>)
      requires Valid()
      modifies this
      ensures files == old(files) && fileIndex == old(fileIndex) && Valid()
      ensures r.Ok? <==> ValidEvent(files, fileIndex, kind, startFile, startRow, endFile, endRow)
      ensures r.Err? ==>
        && r.error == Invalid(Validate(files, fileIndex, kind, startFile, startRow, endFile, endRow).error)
        && events == old(events) && snapshot == old(snapshot)
      ensures r.Ok? ==>
        && r.value.id == freshId && KindName(r.value.kind) == kind
        && r.value.startFile == startFile && r.value.startRow == startRow
        && r.value.endFile == endFile && r.value.endRow == endRow
        && events == old(events) + [r.value]
        && snapshot == Some(Models.SaveEvents(events)) && Persisted()
      ensures AllValid(old(files), old(fileIndex), old(events)) ==> AllValid(files, fileIndex, events)
      ensures UniqueIds(old(events)) && (forall i :: 0 <= i < |old(events)| ==> old(events)[i].id != freshId)
        ==> UniqueIds(events)
    {
      var checked := Validate(files, fileIndex, kind, startFile, startRow, endFile, endRow);
      if checked.Err? {
        return Err(Invalid(checked.error));
      }
      var event := EventRecord(freshId, checked.value, startFile, startRow, endFile, endRow);
      events := events + [event];
      Persist();
      return Ok(event);
    }

    /** Removes every event with the id and persists the list; an id no event
        has is an error and changes nothing. */
    method DeleteEvent(id: string) returns (err: Option<ManagerError>)
      modifies this
      ensures files == old(files) && fileIndex == old(fileIndex)
      ensures err.None? <==> exists i :: 0 <= i < |old(events)| && old(events)[i].id == id
      ensures err.None? ==> events == Without(old(events), id) && snapshot == Some(Models.SaveEvents(events)) && Persisted()
      ensures err.Some? ==> err.value == EventNotFound(id) && events == old(events) && snapshot == old(snapshot)
      ensures forall e :: e in events <==> e in old(events) && e.id != id
      ensures Valid() == old(Valid())
      ensures old(Valid()) && AllValid(old(files), old(fileIndex), old(events)) ==> AllValid(files, fileIndex, events)
    {
      var remaining := Without(events, id);
      WithoutKeepsAllIff(events, id);
      if |remaining| == |events| {
        return Some(EventNotFound(id));
      }
      events := remaining;
      Persist();
      return None;
    }

    /** Changes the kind of the first event with the id and persists the
        list. An unknown kind name is refused before the list is looked at,
        and an id no event has is an error; both change nothing. */
    method UpdateEventType(id: string, kind: string) returns (r: Result<EventRecord, ManagerError>)
      modifies this
      ensures files == old(files) && fileIndex == old(fileIndex)
      ensures ParseKind(kind).None? ==> r == Err(UnknownKindName(kind))
      ensures ParseKind(kind).Some? && (forall i :: 0 <= i < |old(events)| ==> old(events)[i].id != id) ==>
        r == Err(EventNotFound(id))
      ensures ParseKind(kind).Some? && (exists i :: 0 <= i < |old(events)| && old(events)[i].id == id) ==> r.Ok?
      ensures r.Err? ==> events == old(events) && snapshot == old(snapshot)
      ensures r.Ok? ==> exists i :: (0 <= i < |old(events)| && old(events)[i].id == id
        && (forall j :: 0 <= j < i ==> old(events)[j].id != id)
        && events == old(events)[i := old(events)[i].(kind := ParseKind(kind).value)]
        && r.value == events[i])
      ensures r.Ok? ==> KindName(r.value.kind) == kind && snapshot == Some(Models.SaveEvents(events)) && Persisted()
      ensures Valid() == old(Valid())
      ensures old(Valid()) && AllValid(old(files), old(fileIndex), old(events)) ==> AllValid(files, fileIndex, events)
    {
      var k := ParseKind(kind);
      if k.None? {
        return Err(UnknownKindName(kind));
      }
      var i := 0;
      while i < |events|
        invariant 0 <= i <= |events|
        invariant forall j :: 0 <= j < i ==> events[j].id != id
      {
        if events[i].id == id {
          ghost var before := events;
          events := events[i := events[i].(kind := k.value)];
          if Valid() && AllValid(files, fileIndex, before) {
            RetypeKeepsValid(files, fileIndex, before, i, k.value);
          }
          Persist();
          return Ok(events[i]);
        }
        i := i + 1;
      }
      return Err(EventNotFound(id));
    }

    /** The export of marked data into `outDir`, or into the events
        directory when none is given: refused on an empty catalog, then the
        ranges of all events, then every catalog file in order. */
    method ExportMarkedData(outDir: string, disk: map<string, SourceFile>) returns (r: ExportOutcome)
      requires Valid()
      ensures r == ExportMarked(files, fileIndex, events, disk, if outDir != "" then outDir else markedDir)
    {
      var target := if outDir != "" then outDir else markedDir;
      if |files| == 0 {
        return Failed(EmptyCatalog, []);
      }
      var built := BuildFileRanges(files, fileIndex, events);
      if built.Err? {
        return Failed(UnknownEventFile(built.error), []);
      }
      var byFile := built.value;
      var written: seq<Output> := [];
      for k := 0 to |files|
        invariant ExportLoop(files, byFile, disk, target, []) == ExportLoop(files[k..], byFile, disk, target, written)
      {
        var info := files[k];
        assert files[k..][0] == info && files[k..][1..] == files[k + 1..];
        var outs := ExportOneFile(info, At(byFile, info.name), disk, target);
        if outs.Err? {
          return Failed(outs.error, written);
        }
        written := written + outs.value;
      }
      return Exported(written);
    }
  }

  /** One file of the export loop: skipped without ranges, read with the
      encoding fallback, skipped when empty, flagged range by range, skipped
      when no range touched a row, then the annotated copy and the subsets. */
  method ExportOneFile(info: CSVFileInfo, ranges: seq<FileRange>, disk: map<string, SourceFile>, outDir: string)
    returns (r: Result<seq<Output>, ExportError>)
    ensures r == ExportFile(info, ranges, disk, outDir)
  {
    if |ranges| == 0 {
      return Ok([]);
    }
    var read := ReadWithFallback(info, disk);
    if read.Err? {
      return Err(read.error);
    }
    var table := read.value;
    if |table| == 0 {
      return Ok([]);
    }
    var overflow, lost, hasAnnotation, hasOverflow, hasLost := ApplyRanges(ranges, |table|);
    if !hasAnnotation {
      return Ok([]);
    }
    var rows := Annotate(table, overflow, lost);
    var outs := [Output(AnnotatedPath(outDir, info.name), rows)];
    if hasOverflow {
      var overflowRows := Select(rows, Overflow);
      if |overflowRows| > 0 {
        outs := outs + [Output(OverflowPath(outDir, info.name), overflowRows)];
      }
    }
    assert outs == [Output(AnnotatedPath(outDir, info.name), rows)]
      + Subset(OverflowPath(outDir, info.name), rows, Overflow, hasOverflow);
    if hasLost {
      var lostRows := Select(rows, Lost);
      if |lostRows| > 0 {
        outs := outs + [Output(LostPath(outDir, info.name), lostRows)];
      }
    }
    assert outs == [Output(AnnotatedPath(outDir, info.name), rows)]
      + Subset(OverflowPath(outDir, info.name), rows, Overflow, hasOverflow)
      + Subset(LostPath(outDir, info.name), rows, Lost, hasLost);
    return Ok(outs);
  }
}

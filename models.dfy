/** The record types shared by the annotation manager: the event kind, the
    catalog entry of a data file with its public projection, and the event
    record with the dictionary form in which the event list is persisted. */
module Models {
  import opened Common

  /** The two kinds of event an operator can mark. */
  datatype EventKind = Overflow | Lost

  /** The wire name of a kind; parsing it gives the kind back. */
  function KindName(k: EventKind): (s: string)
    ensures s == "overflow" || s == "lost"
  {
    match k
    case Overflow => "overflow"
    case Lost => "lost"
  }

  /** Parsing the name of a kind gives that kind back. */
  lemma KindNameRoundTrip(k: EventKind)
    ensures ParseKind(KindName(k)) == Some(k)
  {
  }

  /** Accepts exactly the two kind names and nothing else. */
  function ParseKind(s: string): (r: Option<EventKind>)
    ensures r.Some? <==> s == "overflow" || s == "lost"
    ensures r.Some? ==> KindName(r.value) == s
  {
    if s == "overflow" then Some(Overflow)
    else if s == "lost" then Some(Lost)
    else None
  }

  /** A JSON scalar as it appears in a projected or persisted dictionary. */
  datatype Value = Str(s: string) | Int(i: int)

  type Dict = map<string, Value>

  /** Metadata about one data file of the catalog. `chartPath` is None when
      no rendered chart exists on disk for the file. */
  datatype CSVFileInfo = CSVFileInfo(
    name: string,
    path: string,
    rowCount: int,
    chartPath: Option<string>,
    chartRelativePath: string,
    encoding: string)

  const ChartUrlPrefix: string := "/charts/"

  /** The projection handed to clients: name, row count and chart URL, and
      never the file's path or encoding. */
  function ToPublicDict(info: CSVFileInfo): (d: Dict)
    ensures d.Keys == {"name", "row_count", "chart_path"}
    ensures "path" !in d && "encoding" !in d
    ensures d["name"] == Str(info.name) && d["row_count"] == Int(info.rowCount)
    ensures d["chart_path"].Str? && |d["chart_path"].s| == |ChartUrlPrefix| + |info.chartRelativePath|
    ensures d["chart_path"].s[..|ChartUrlPrefix|] == ChartUrlPrefix
    ensures d["chart_path"].s[|ChartUrlPrefix|..] == info.chartRelativePath
  {
    map["name" := Str(info.name),
        "row_count" := Int(info.rowCount),
        "chart_path" := Str(ChartUrlPrefix + info.chartRelativePath)]
  }

  /** One annotated event: rows are 1-based and inclusive, and the span may
      run from `startFile` across later files to `endFile`. */
  datatype EventRecord = EventRecord(
    id: string,
    kind: EventKind,
    startFile: string,
    startRow: int,
    endFile: string,
    endRow: int)

  const EventFields: set<string> :=
    {"id", "event_type", "start_file", "start_row", "end_file", "end_row"}

  /** The dictionary form of a record, one entry per field. */
  function ToDict(e: EventRecord): (d: Dict)
    ensures d.Keys == EventFields
    ensures d["id"] == Str(e.id) && d["event_type"] == Str(KindName(e.kind))
  {
    map["id" := Str(e.id),
        "event_type" := Str(KindName(e.kind)),
        "start_file" := Str(e.startFile),
        "start_row" := Int(e.startRow),
        "end_file" := Str(e.endFile),
        "end_row" := Int(e.endRow)]
  }

  /** Rebuilding a record from keyword arguments: it fails unless the keys
      are exactly the record's fields (and, in this model, the values have the
      field types and the kind is one of the two names). */
  function FromDict(d: Dict): (r: Option<EventRecord>)
    ensures r.Some? ==> d.Keys == EventFields
  {
    if d.Keys == EventFields
       && d["id"].Str? && d["event_type"].Str? && ParseKind(d["event_type"].s).Some?
       && d["start_file"].Str? && d["start_row"].Int?
       && d["end_file"].Str? && d["end_row"].Int?
    then Some(EventRecord(d["id"].s, ParseKind(d["event_type"].s).value,
                          d["start_file"].s, d["start_row"].i,
                          d["end_file"].s, d["end_row"].i))
    else None
  }

  /** A record survives a trip through its dictionary form unchanged. */
  lemma RecordRoundTrip(e: EventRecord)
    ensures FromDict(ToDict(e)) == Some(e)
  {
  }

  /** Every dictionary that loads is exactly the dictionary of what it loads to. */
  lemma DictRoundTrip(d: Dict)
    requires FromDict(d).Some?
    ensures ToDict(FromDict(d).value) == d
  {
    var e := FromDict(d).value;
    assert ParseKind(d["event_type"].s) == Some(e.kind);
    assert KindName(e.kind) == d["event_type"].s;
    assert ToDict(e).Keys == d.Keys;
    forall k | k in d ensures ToDict(e)[k] == d[k] {
      assert k in EventFields;
    }
  }

  /** The persisted snapshot: the records' dictionaries in list order. */
  function SaveEvents(events: seq<EventRecord>): (ds: seq<Dict>)
    ensures |ds| == |events|
    ensures forall i :: 0 <= i < |ds| ==> ds[i].Keys == EventFields && FromDict(ds[i]) == Some(events[i])
  {
    seq(|events|, i requires 0 <= i < |events| => ToDict(events[i]))
  }

  /** Loading a snapshot: every entry must rebuild a record; an absent file
      (None) loads as the empty list. */
  function LoadEvents(snapshot: Option<seq<Dict>>): (r: Option<seq<EventRecord>>)
    ensures snapshot.None? ==> r == Some([])
    ensures snapshot.Some? && r.Some? ==>
      |r.value| == |snapshot.value|
      && forall i :: 0 <= i < |r.value| ==> FromDict(snapshot.value[i]) == Some(r.value[i])
    ensures snapshot.Some? && r.None? ==>
      exists i :: 0 <= i < |snapshot.value| && FromDict(snapshot.value[i]).None?
  {
    match snapshot
    case None => Some([])
    case Some(ds) => LoadRecords(ds)
  }

  function LoadRecords(ds: seq<Dict>): (r: Option<seq<EventRecord>>)
    ensures r.Some? ==>
      |r.value| == |ds| && forall i :: 0 <= i < |ds| ==> FromDict(ds[i]) == Some(r.value[i])
    ensures r.None? ==> exists i :: 0 <= i < |ds| && FromDict(ds[i]).None?
  {
    if |ds| == 0 then Some([])
    else match FromDict(ds[0])
      case None => None
      case Some(e) =>
        match LoadRecords(ds[1..])
        case None => None
        case Some(rest) => Some([e] + rest)
  }

  /** Persisting the event list and loading it back reproduces the same
      ordered list, ids included. */
  lemma {:induction false} SnapshotRoundTrip(events: seq<EventRecord>)
    ensures LoadEvents(Some(SaveEvents(events))) == Some(events)
  {
    var ds := SaveEvents(events);
    assert LoadEvents(Some(ds)) == LoadRecords(ds);
    if |events| > 0 {
      SnapshotRoundTrip(events[1..]);
      assert ds[1..] == SaveEvents(events[1..]);
      assert LoadRecords(ds[1..]) == Some(events[1..]);
      assert FromDict(ds[0]) == Some(events[0]);
      assert events == [events[0]] + events[1..];
    }
  }
}

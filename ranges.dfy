/** Expansion of the event list into per-file row ranges: an event spanning
    files s..e contributes one range to each of those files, starting at the
    event's start row in file s, ending at its end row in file e, and covering
    every row of the files in between. */
module Ranges {
  import opened Common
  import opened Models
  import opened Catalog

  /** One event's part in one file: its kind and 1-based inclusive rows. */
  datatype FileRange = FileRange(kind: EventKind, startRow: int, endRow: int)

  predicate KnownFiles(events: seq<EventRecord>, index: map<string, nat>)
  {
    forall i :: 0 <= i < |events| ==> events[i].startFile in index && events[i].endFile in index
  }

  /** Whether file ordinal f lies between the event's start and end file. */
  predicate InSpan(index: map<string, nat>, e: EventRecord, f: int)
    requires e.startFile in index && e.endFile in index
  {
    index[e.startFile] <= f <= index[e.endFile]
  }

  /** The range the event contributes to file f. */
  function EventRange(files: seq<CSVFileInfo>, index: map<string, nat>, e: EventRecord, f: nat): FileRange
    requires f < |files| && e.startFile in index && e.endFile in index
  {
    FileRange(e.kind,
              if f == index[e.startFile] then e.startRow else 1,
              if f == index[e.endFile] then e.endRow else files[f].rowCount)
  }

  /** The four shapes of a range: a file strictly inside the span is covered
      whole, the start file from the start row, the end file up to the end
      row, and a single-file event from its start row to its end row. */
  lemma EventRangeShape(files: seq<CSVFileInfo>, index: map<string, nat>, e: EventRecord, f: nat)
    requires f < |files| && e.startFile in index && e.endFile in index
    requires InSpan(index, e, f)
    ensures EventRange(files, index, e, f).kind == e.kind
    ensures index[e.startFile] < f < index[e.endFile] ==>
      EventRange(files, index, e, f) == FileRange(e.kind, 1, files[f].rowCount)
    ensures f == index[e.startFile] < index[e.endFile] ==>
      EventRange(files, index, e, f) == FileRange(e.kind, e.startRow, files[f].rowCount)
    ensures index[e.startFile] < f == index[e.endFile] ==>
      EventRange(files, index, e, f) == FileRange(e.kind, 1, e.endRow)
    ensures index[e.startFile] == f == index[e.endFile] ==>
      EventRange(files, index, e, f) == FileRange(e.kind, e.startRow, e.endRow)
  {
  }

  /** A valid event never yields a range outside its file's rows, and the
      range is non-empty unless it is an intermediate file without rows. */
  lemma ValidEventRangeWithinFile(files: seq<CSVFileInfo>, index: map<string, nat>, e: EventRecord, f: nat)
    requires IndexInBounds(files, index) && f < |files|
    requires ValidEvent(files, index, KindName(e.kind), e.startFile, e.startRow, e.endFile, e.endRow)
    requires InSpan(index, e, f)
    ensures 1 <= EventRange(files, index, e, f).startRow
    ensures EventRange(files, index, e, f).endRow <= files[f].rowCount
    ensures EventRange(files, index, e, f).startRow <= EventRange(files, index, e, f).endRow
            || (index[e.startFile] < f < index[e.endFile] && files[f].rowCount < 1)
  {
  }

  /** The ranges of file f, one per event whose span covers f, in event order. */
  function RangesOf(files: seq<CSVFileInfo>, index: map<string, nat>, events: seq<EventRecord>, f: nat)
    : seq<FileRange>
    requires f < |files| && KnownFiles(events, index)
  {
    if |events| == 0 then []
    else
      var e := events[|events| - 1];
      RangesOf(files, index, events[..|events| - 1], f)
        + (if InSpan(index, e, f) then [EventRange(files, index, e, f)] else [])
  }

  /** Ranges keep the order of the events they come from. */
  lemma {:induction false} RangesOfAppend(files: seq<CSVFileInfo>, index: map<string, nat>,
                                          a: seq<EventRecord>, b: seq<EventRecord>, f: nat)
    requires f < |files| && KnownFiles(a, index) && KnownFiles(b, index)
    ensures KnownFiles(a + b, index)
    ensures RangesOf(files, index, a + b, f) == RangesOf(files, index, a, f) + RangesOf(files, index, b, f)
    decreases |b|
  {
    if |b| == 0 {
      assert a + b == a;
    } else {
      var b' := b[..|b| - 1];
      assert (a + b)[..|a + b| - 1] == a + b';
      RangesOfAppend(files, index, a, b', f);
    }
  }

  /** A file's ranges are exactly those of the events whose span covers it. */
  lemma {:induction false} RangesOfMembers(files: seq<CSVFileInfo>, index: map<string, nat>,
                                           events: seq<EventRecord>, f: nat)
    requires f < |files| && KnownFiles(events, index)
    ensures forall r :: r in RangesOf(files, index, events, f) ==>
      exists i :: 0 <= i < |events| && InSpan(index, events[i], f) && r == EventRange(files, index, events[i], f)
    ensures forall i :: 0 <= i < |events| && InSpan(index, events[i], f) ==>
      EventRange(files, index, events[i], f) in RangesOf(files, index, events, f)
  {
    if |events| > 0 {
      var init := events[..|events| - 1];
      RangesOfMembers(files, index, init, f);
      forall i | 0 <= i < |events| - 1 ensures events[i] == init[i] { }
    }
  }

  /** The name of the first file, in event order (start file before end
      file), that the index does not know. */
  function FirstUnknownFile(events: seq<EventRecord>, index: map<string, nat>): (r: Option<string>)
    ensures r.None? <==> KnownFiles(events, index)
    ensures r.Some? ==> r.value !in index
  {
    if |events| == 0 then None
    else if events[0].startFile !in index then Some(events[0].startFile)
    else if events[0].endFile !in index then Some(events[0].endFile)
    else
      var rest := FirstUnknownFile(events[1..], index);
      assert KnownFiles(events[1..], index) ==> KnownFiles(events, index) by {
        if KnownFiles(events[1..], index) {
          forall i | 1 <= i < |events| ensures events[i] == events[1..][i - 1] { }
        }
      }
      rest
  }

  /** The name found is that of the first event naming an unknown file:
      every earlier event names known files, and the event's start file is
      looked up before its end file. */
  lemma {:induction false} FirstUnknownIsFirst(events: seq<EventRecord>, index: map<string, nat>)
    ensures FirstUnknownFile(events, index).Some? ==>
      exists i :: (0 <= i < |events| && KnownFiles(events[..i], index)
        && FirstUnknownFile(events, index).value
           == (if events[i].startFile !in index then events[i].startFile else events[i].endFile))
  {
    if |events| > 0 && events[0].startFile in index && events[0].endFile in index {
      var tail := events[1..];
      FirstUnknownIsFirst(tail, index);
      if FirstUnknownFile(events, index).Some? {
        assert FirstUnknownFile(events, index) == FirstUnknownFile(tail, index);
        var i :| 0 <= i < |tail| && KnownFiles(tail[..i], index)
          && FirstUnknownFile(tail, index).value
             == (if tail[i].startFile !in index then tail[i].startFile else tail[i].endFile);
        assert events[i + 1] == tail[i];
        var before := events[..i + 1];
        forall j | 0 <= j < |before| ensures before[j].startFile in index && before[j].endFile in index {
          if j > 0 {
            assert before[j] == tail[..i][j - 1];
          }
        }
      }
    } else if |events| > 0 {
      assert events[..0] == [];
    }
  }

  lemma {:induction false} FirstUnknownAfterPrefix(events: seq<EventRecord>, index: map<string, nat>, k: nat)
    requires k <= |events| && KnownFiles(events[..k], index)
    ensures FirstUnknownFile(events, index) == FirstUnknownFile(events[k..], index)
  {
    if k > 0 {
      assert events[0] == events[..k][0];
      assert events[1..][..k - 1] == events[..k][1..];
      FirstUnknownAfterPrefix(events[1..], index, k - 1);
      assert events[1..][k - 1..] == events[k..];
    }
  }

  /** The file-to-ranges map, or the first unknown file name (a lookup of a
      name the catalog does not hold fails). Files without ranges have no key. */
  function FileRanges(files: seq<CSVFileInfo>, index: map<string, nat>, events: seq<EventRecord>)
    : (r: Result<map<string, seq<FileRange>>, string>)
    requires IndexMatches(files, index)
    ensures r.Err? <==> !KnownFiles(events, index)
    ensures r.Ok? ==> forall n :: n in r.value ==> n in index && r.value[n] != []
    ensures r.Ok? ==> forall f :: 0 <= f < |files| ==>
      (files[f].name in r.value <==> RangesOf(files, index, events, f) != [])
  {
    match FirstUnknownFile(events, index)
    case Some(name) => Err(name)
    case None =>
      Ok(map n | n in index && RangesOf(files, index, events, index[n]) != [] :: RangesOf(files, index, events, index[n]))
  }

  function At(m: map<string, seq<FileRange>>, name: string): seq<FileRange>
  {
    if name in m then m[name] else []
  }

  /** A map holding, under each file's name, the ranges of the processed
      events, and no empty lists. */
  predicate HoldsRanges(files: seq<CSVFileInfo>, index: map<string, nat>, events: seq<EventRecord>,
                        m: map<string, seq<FileRange>>)
    requires KnownFiles(events, index)
  {
    && (forall n :: n in m ==> n in index && m[n] != [])
    && (forall g :: 0 <= g < |files| ==> At(m, files[g].name) == RangesOf(files, index, events, g))
  }

  lemma HoldsRangesIsFileRanges(files: seq<CSVFileInfo>, index: map<string, nat>, events: seq<EventRecord>,
                                m: map<string, seq<FileRange>>)
    requires IndexMatches(files, index) && KnownFiles(events, index)
    requires HoldsRanges(files, index, events, m)
    ensures FileRanges(files, index, events) == Ok(m)
  {
    assert FirstUnknownFile(events, index).None?;
    var expected := map n | n in index && RangesOf(files, index, events, index[n]) != [] :: RangesOf(files, index, events, index[n]);
    assert FileRanges(files, index, events) == Ok(expected);
    forall n | n in m ensures n in expected && m[n] == expected[n] {
      var g := index[n];
      assert files[g].name == n;
      assert At(m, files[g].name) == m[n];
      assert m[n] == RangesOf(files, index, events, g);
    }
    forall n | n in expected ensures n in m {
      var g := index[n];
      assert files[g].name == n;
      assert At(m, files[g].name) != [];
    }
    assert m.Keys == expected.Keys;
    assert m == expected;
  }

  /** Under a consistent index no two files share a name. */
  lemma NameUnique(files: seq<CSVFileInfo>, index: map<string, nat>, f: nat)
    requires IndexMatches(files, index) && f < |files|
    ensures files[f].name in index
    ensures forall g :: 0 <= g < |files| && g != f ==> files[g].name != files[f].name
  {
    forall g | 0 <= g < |files| && g != f ensures files[g].name != files[f].name {
      assert index[files[g].name] == g;
    }
  }

  /** What the inner loop keeps: the files of the span before ordinal f have
      received the event's range, and no other file has changed. */
  predicate AddedUpTo(files: seq<CSVFileInfo>, index: map<string, nat>, e: EventRecord,
                      m: map<string, seq<FileRange>>, m': map<string, seq<FileRange>>, f: int)
    requires e.startFile in index && e.endFile in index
  {
    && (forall n :: n in m' ==> n in index && m'[n] != [])
    && (forall g :: 0 <= g < |files| ==>
          At(m', files[g].name) == At(m, files[g].name)
            + (if index[e.startFile] <= g < f then [EventRange(files, index, e, g)] else []))
  }

  lemma AddedOneMore(files: seq<CSVFileInfo>, index: map<string, nat>, e: EventRecord,
                     m: map<string, seq<FileRange>>, prev: map<string, seq<FileRange>>, f: nat)
    requires e.startFile in index && e.endFile in index
    requires index[e.startFile] <= f < |files| && files[f].name in index
    requires forall g :: 0 <= g < |files| && g != f ==> files[g].name != files[f].name
    requires AddedUpTo(files, index, e, m, prev, f)
    ensures AddedUpTo(files, index, e, m,
                      prev[files[f].name := At(prev, files[f].name) + [EventRange(files, index, e, f)]], f + 1)
  {
    var x := EventRange(files, index, e, f);
    var next := prev[files[f].name := At(prev, files[f].name) + [x]];
    assert forall n :: n in next ==> n in index && next[n] != [];
    forall g | 0 <= g < |files|
      ensures At(next, files[g].name) == At(m, files[g].name)
        + (if index[e.startFile] <= g < f + 1 then [EventRange(files, index, e, g)] else [])
    {
      var before := At(prev, files[g].name);
      assert before == At(m, files[g].name)
        + (if index[e.startFile] <= g < f then [EventRange(files, index, e, g)] else []);
      if g != f {
        assert At(next, files[g].name) == before;
      } else {
        assert At(next, files[g].name) == before + [x];
      }
    }
  }

  /** The inner loop: one range appended to each file of the event's span. */
  method AddEventRanges(files: seq<CSVFileInfo>, index: map<string, nat>, e: EventRecord,
                        m: map<string, seq<FileRange>>)
    returns (m': map<string, seq<FileRange>>)
    requires IndexMatches(files, index) && e.startFile in index && e.endFile in index
    requires forall n :: n in m ==> n in index && m[n] != []
    ensures forall n :: n in m' ==> n in index && m'[n] != []
    ensures forall g :: 0 <= g < |files| ==>
      At(m', files[g].name) == At(m, files[g].name)
        + (if InSpan(index, e, g) then [EventRange(files, index, e, g)] else [])
  {
    m' := m;
    var startIdx := index[e.startFile];
    var endIdx := index[e.endFile];
    var f := startIdx;
    while f <= endIdx
      invariant startIdx <= f <= Max(startIdx, endIdx + 1)
      invariant AddedUpTo(files, index, e, m, m', f)
    {
      var info := files[f];
      var startRow := 1;
      var endRow := info.rowCount;
      if f == startIdx {
        startRow := e.startRow;
      }
      if f == endIdx {
        endRow := e.endRow;
      }
      assert FileRange(e.kind, startRow, endRow) == EventRange(files, index, e, f);
      NameUnique(files, index, f);
      AddedOneMore(files, index, e, m, m', f);
      m' := m'[info.name := At(m', info.name) + [FileRange(e.kind, startRow, endRow)]];
      f := f + 1;
    }
    forall g | 0 <= g < |files| ensures (startIdx <= g < f) == InSpan(index, e, g) { }
  }

  lemma HoldsRangesStep(files: seq<CSVFileInfo>, index: map<string, nat>, events: seq<EventRecord>, k: nat,
                        m: map<string, seq<FileRange>>, m': map<string, seq<FileRange>>)
    requires k < |events| && KnownFiles(events[..k], index)
    requires events[k].startFile in index && events[k].endFile in index
    requires HoldsRanges(files, index, events[..k], m)
    requires forall n :: n in m' ==> n in index && m'[n] != []
    requires forall g :: 0 <= g < |files| ==>
      At(m', files[g].name) == At(m, files[g].name)
        + (if InSpan(index, events[k], g) then [EventRange(files, index, events[k], g)] else [])
    ensures KnownFiles(events[..k + 1], index)
    ensures HoldsRanges(files, index, events[..k + 1], m')
  {
    assert events[..k + 1][..k] == events[..k];
    assert events[..k + 1][k] == events[k];
  }

  /** The loop over events: each event's ranges appended in event order. */
  method BuildFileRanges(files: seq<CSVFileInfo>, index: map<string, nat>, events: seq<EventRecord>)
    returns (r: Result<map<string, seq<FileRange>>, string>)
    requires IndexMatches(files, index)
    ensures r == FileRanges(files, index, events)
  {
    var m: map<string, seq<FileRange>> := map[];
    var k := 0;
    while k < |events|
      invariant 0 <= k <= |events|
      invariant KnownFiles(events[..k], index)
      invariant HoldsRanges(files, index, events[..k], m)
    {
      var e := events[k];
      if e.startFile !in index || e.endFile !in index {
        FirstUnknownAfterPrefix(events, index, k);
        assert events[k..][0] == e;
        return Err(if e.startFile !in index then e.startFile else e.endFile);
      }
      var m' := AddEventRanges(files, index, e, m);
      HoldsRangesStep(files, index, events, k, m, m');
      m := m';
      k := k + 1;
    }
    assert events[..k] == events;
    HoldsRangesIsFileRanges(files, index, events, m);
    return Ok(m);
  }
}

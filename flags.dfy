/** The per-row flag columns of an export: every file range is clipped to
    the rows the file really has and sets its kind's column to 1 on the rows
    it covers; nothing ever resets a flag, so ranges combine by logical or. */
module Flags {
  import opened Common
  import opened Models
  import opened Ranges

  /** First 0-based row a range covers. */
  function ClipStart(r: FileRange): int
  {
    Max(r.startRow - 1, 0)
  }

  /** Last 0-based row a range covers in a table of n rows. */
  function ClipEnd(r: FileRange, n: nat): int
  {
    Min(r.endRow - 1, n - 1)
  }

  predicate Covers(r: FileRange, n: nat, i: int)
  {
    ClipStart(r) <= i <= ClipEnd(r, n)
  }

  /** The range still covers some row after clipping. */
  predicate Touches(r: FileRange, n: nat)
  {
    ClipStart(r) <= ClipEnd(r, n)
  }

  /** Row i is covered by some range of the given kind. */
  predicate Flagged(ranges: seq<FileRange>, kind: EventKind, n: nat, i: int)
  {
    exists j :: 0 <= j < |ranges| && ranges[j].kind == kind && Covers(ranges[j], n, i)
  }

  predicate AnyTouches(ranges: seq<FileRange>, n: nat)
  {
    exists j :: 0 <= j < |ranges| && Touches(ranges[j], n)
  }

  predicate AnyTouchesKind(ranges: seq<FileRange>, kind: EventKind, n: nat)
  {
    exists j :: 0 <= j < |ranges| && ranges[j].kind == kind && Touches(ranges[j], n)
  }

  /** Writing one range into a flag column: 1 over its clipped rows when it
      has the column's kind, everything else as it was. */
  function Paint(column: seq<int>, r: FileRange, kind: EventKind): seq<int>
  {
    if r.kind != kind then column
    else seq(|column|, i requires 0 <= i < |column| => if Covers(r, |column|, i) then 1 else column[i])
  }

  /** The flag column of one kind after writing the ranges in order into a
      column of n zeros. */
  function FlagColumn(ranges: seq<FileRange>, kind: EventKind, n: nat): (column: seq<int>)
    ensures |column| == n
  {
    if |ranges| == 0 then seq(n, i => 0)
    else Paint(FlagColumn(ranges[..|ranges| - 1], kind, n), ranges[|ranges| - 1], kind)
  }

  /** Row i's flag is 1 exactly when a range of that kind covers it, and 0 otherwise. */
  lemma {:induction false} FlagsExact(ranges: seq<FileRange>, kind: EventKind, n: nat, i: nat)
    requires i < n
    ensures FlagColumn(ranges, kind, n)[i] == if Flagged(ranges, kind, n, i) then 1 else 0
  {
    if |ranges| > 0 {
      var init := ranges[..|ranges| - 1];
      FlagsExact(init, kind, n, i);
      if Flagged(init, kind, n, i) {
        var j :| 0 <= j < |init| && init[j].kind == kind && Covers(init[j], n, i);
        assert ranges[j] == init[j];
      }
      if Flagged(ranges, kind, n, i) && !Covers(ranges[|ranges| - 1], n, i) {
        var j :| 0 <= j < |ranges| && ranges[j].kind == kind && Covers(ranges[j], n, i);
        if j == |ranges| - 1 {
          assert false;
        }
        assert init[j] == ranges[j];
      }
    }
  }

  /** Every flag is 0 or 1. */
  lemma FlagsAreBits(ranges: seq<FileRange>, kind: EventKind, n: nat)
    ensures forall i :: 0 <= i < n ==> FlagColumn(ranges, kind, n)[i] == 0 || FlagColumn(ranges, kind, n)[i] == 1
  {
    forall i | 0 <= i < n ensures FlagColumn(ranges, kind, n)[i] == 0 || FlagColumn(ranges, kind, n)[i] == 1 {
      FlagsExact(ranges, kind, n, i);
    }
  }

  /** Writes only ever set flags, so a flag column built from two lists of
      ranges is the or of the columns built from each. */
  lemma FlagsOr(a: seq<FileRange>, b: seq<FileRange>, kind: EventKind, n: nat, i: nat)
    requires i < n
    ensures FlagColumn(a + b, kind, n)[i] == Max(FlagColumn(a, kind, n)[i], FlagColumn(b, kind, n)[i])
  {
    FlagsExact(a + b, kind, n, i);
    FlagsExact(a, kind, n, i);
    FlagsExact(b, kind, n, i);
    if Flagged(a + b, kind, n, i) {
      var j :| 0 <= j < |a + b| && (a + b)[j].kind == kind && Covers((a + b)[j], n, i);
      if j < |a| {
        assert a[j] == (a + b)[j];
      } else {
        assert b[j - |a|] == (a + b)[j];
      }
    }
    if Flagged(a, kind, n, i) {
      var j :| 0 <= j < |a| && a[j].kind == kind && Covers(a[j], n, i);
      assert (a + b)[j] == a[j];
    }
    if Flagged(b, kind, n, i) {
      var j :| 0 <= j < |b| && b[j].kind == kind && Covers(b[j], n, i);
      assert (a + b)[|a| + j] == b[j];
    }
  }

  /** A kind's range touches some row exactly when that kind's column holds a 1. */
  lemma TouchesIffFlagged(ranges: seq<FileRange>, kind: EventKind, n: nat)
    ensures AnyTouchesKind(ranges, kind, n) <==> exists i :: 0 <= i < n && FlagColumn(ranges, kind, n)[i] == 1
  {
    if AnyTouchesKind(ranges, kind, n) {
      var j :| 0 <= j < |ranges| && ranges[j].kind == kind && Touches(ranges[j], n);
      var i := ClipStart(ranges[j]);
      FlagsExact(ranges, kind, n, i);
    }
    if exists i :: 0 <= i < n && FlagColumn(ranges, kind, n)[i] == 1 {
      var i :| 0 <= i < n && FlagColumn(ranges, kind, n)[i] == 1;
      FlagsExact(ranges, kind, n, i);
      var j :| 0 <= j < |ranges| && ranges[j].kind == kind && Covers(ranges[j], n, i);
    }
  }

  /** Some range touches a row exactly when one of the two kinds does. */
  lemma TouchesIffEitherKind(ranges: seq<FileRange>, n: nat)
    ensures AnyTouches(ranges, n) <==> AnyTouchesKind(ranges, Overflow, n) || AnyTouchesKind(ranges, Lost, n)
  {
    if AnyTouches(ranges, n) {
      var j :| 0 <= j < |ranges| && Touches(ranges[j], n);
      assert ranges[j].kind == Overflow || ranges[j].kind == Lost;
    }
  }

  /** The export's flag loop over a file's ranges, on two zero-initialised
      columns of n rows: each range that still covers a row after clipping
      sets its kind's column to 1 over those rows and is noted as an annotation. */
  method ApplyRanges(ranges: seq<FileRange>, n: nat)
    returns (overflow: seq<int>, lost: seq<int>, hasAnnotation: bool, hasOverflow: bool, hasLost: bool)
    ensures overflow == FlagColumn(ranges, Overflow, n) && lost == FlagColumn(ranges, Lost, n)
    ensures hasAnnotation == AnyTouches(ranges, n)
    ensures hasOverflow == AnyTouchesKind(ranges, Overflow, n)
    ensures hasLost == AnyTouchesKind(ranges, Lost, n)
  {
    var ov := new int[n](i => 0);
    var lo := new int[n](i => 0);
    hasAnnotation, hasOverflow, hasLost := false, false, false;
    assert ranges[..0] == [];
    for k := 0 to |ranges|
      invariant ov[..] == FlagColumn(ranges[..k], Overflow, n)
      invariant lo[..] == FlagColumn(ranges[..k], Lost, n)
      invariant hasAnnotation == AnyTouches(ranges[..k], n)
      invariant hasOverflow == AnyTouchesKind(ranges[..k], Overflow, n)
      invariant hasLost == AnyTouchesKind(ranges[..k], Lost, n)
    {
      var r := ranges[k];
      assert ranges[..k + 1][..k] == ranges[..k] && ranges[..k + 1][k] == r;
      var startIdx := Max(r.startRow - 1, 0);
      var endIdx := Min(r.endRow - 1, n - 1);
      if startIdx <= endIdx {
        hasAnnotation := true;
        if r.kind == Overflow {
          forall i | startIdx <= i <= endIdx {
            ov[i] := 1;
          }
          hasOverflow := true;
        } else {
          forall i | startIdx <= i <= endIdx {
            lo[i] := 1;
          }
          hasLost := true;
        }
      }
    }
    assert ranges[..|ranges|] == ranges;
    overflow, lost := ov[..], lo[..];
  }
}

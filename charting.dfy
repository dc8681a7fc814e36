/** The streaming chart sampler: which columns a chart shows, and which rows
    it samples when a large file is read chunk by chunk under a fixed budget
    of sample points. Drawing the figure is not modelled. */
module Charting {
  import opened Common

  // ---------------------------------------------------------------------------
  // Column selection
  // ---------------------------------------------------------------------------

  /** The columns a chart prefers, in order of preference. */
  const PreferredColumns: seq<string> :=
    ["钻头深度(m)", "立压log(MPa)", "泵冲1(spm)", "泵冲2(spm)", "泵冲3(spm)", "入口流量(L/s)", "FDT101(L/s)"]

  /** The encodings the sampler tries, in order. */
  const ChartEncodings: seq<string> := ["gbk", "utf-8", "utf-8-sig"]

  /** A chart shows at most this many columns. */
  const MaxColumns: nat := 3

  /** The elements of `xs` that `pool` holds, in their order. */
  function Keep(xs: seq<string>, pool: set<string>): (r: seq<string>)
    ensures |r| <= |xs|
    ensures forall c :: c in r <==> c in xs && c in pool
  {
    if |xs| == 0 then []
    else (if xs[0] in pool then [xs[0]] else []) + Keep(xs[1..], pool)
  }

  /** The first k elements, or all of them when there are fewer. */
  function Take(xs: seq<string>, k: nat): (r: seq<string>)
    ensures |r| == Min(k, |xs|)
  {
    if |xs| <= k then xs else xs[..k]
  }

  /** `r` occurs in `xs` in the same order, possibly with gaps. */
  predicate Subseq(r: seq<string>, xs: seq<string>)
    decreases |xs|
  {
    if |r| == 0 then true
    else if |xs| == 0 then false
    else if r[0] == xs[0] then Subseq(r[1..], xs[1..])
    else Subseq(r, xs[1..])
  }

  predicate Distinct(xs: seq<string>)
  {
    forall i, j :: 0 <= i < j < |xs| ==> xs[i] != xs[j]
  }

  /** Taking after keeping, one element at a time. */
  lemma TakeKeepStep(xs: seq<string>, pool: set<string>, k: nat)
    requires |xs| > 0
    ensures xs[0] in pool && k > 0 ==> Take(Keep(xs, pool), k) == [xs[0]] + Take(Keep(xs[1..], pool), k - 1)
    ensures xs[0] in pool && k == 0 ==> Take(Keep(xs, pool), k) == []
    ensures xs[0] !in pool ==> Take(Keep(xs, pool), k) == Take(Keep(xs[1..], pool), k)
  {
    var rest := Keep(xs[1..], pool);
    if xs[0] in pool {
      var kept := [xs[0]] + rest;
      assert Keep(xs, pool) == kept;
      if k > 0 && |kept| > k {
        assert kept[..k] == [xs[0]] + rest[..k - 1];
      }
    } else {
      assert Keep(xs, pool) == rest;
    }
  }

  /** The first k elements of `xs` that `pool` holds: no more than k, all
      from `xs` and `pool`, in the order of `xs`, and all of them when fewer
      than k qualify. */
  lemma {:induction false} FirstKeptFacts(xs: seq<string>, pool: set<string>, k: nat)
    ensures |Take(Keep(xs, pool), k)| <= k
    ensures forall c :: c in Take(Keep(xs, pool), k) ==> c in xs && c in pool
    ensures Subseq(Take(Keep(xs, pool), k), xs)
    ensures |Take(Keep(xs, pool), k)| < k ==> forall c :: c in xs && c in pool ==> c in Take(Keep(xs, pool), k)
    decreases |xs|
  {
    if |xs| > 0 {
      TakeKeepStep(xs, pool, k);
      var r := Take(Keep(xs, pool), k);
      if xs[0] in pool && k > 0 {
        FirstKeptFacts(xs[1..], pool, k - 1);
        assert r[1..] == Take(Keep(xs[1..], pool), k - 1);
        forall c | c in r ensures c in xs && c in pool {
          if c != xs[0] {
            assert c in r[1..];
          }
        }
        if |r| < k {
          forall c | c in xs && c in pool ensures c in r {
            if c != xs[0] {
              assert c in xs[1..];
            }
          }
        }
      } else if xs[0] !in pool {
        FirstKeptFacts(xs[1..], pool, k);
        forall c | c in xs && c in pool ensures c in xs[1..] {
        }
        SubseqSkip(r, xs);
      }
    }
  }

  /** A subsequence of the tail is a subsequence of the whole. */
  lemma {:induction false} SubseqSkip(r: seq<string>, xs: seq<string>)
    requires |xs| > 0 && Subseq(r, xs[1..])
    ensures Subseq(r, xs)
    decreases |xs|, |r|
  {
    if |r| > 0 && r[0] == xs[0] {
      SubseqTail(r, xs[1..]);
    }
  }

  /** Dropping the first element of a subsequence keeps it a subsequence. */
  lemma {:induction false} SubseqTail(r: seq<string>, xs: seq<string>)
    requires |r| > 0 && Subseq(r, xs)
    ensures Subseq(r[1..], xs)
    decreases |xs|, |r|
  {
    if r[0] == xs[0] {
      SubseqSkip(r[1..], xs);
    } else {
      SubseqTail(r, xs[1..]);
      SubseqSkip(r[1..], xs);
    }
  }

  /** When the elements are distinct, no qualifying element is skipped in
      favour of a later one. */
  lemma {:induction false} FirstKeptNoSkip(xs: seq<string>, pool: set<string>, k: nat)
    ensures Distinct(xs) ==> forall i, j :: 0 <= i < j < |xs| && xs[j] in Take(Keep(xs, pool), k) && xs[i] in pool ==>
      xs[i] in Take(Keep(xs, pool), k)
    decreases |xs|
  {
    if |xs| > 0 && Distinct(xs) {
      TakeKeepStep(xs, pool, k);
      var r := Take(Keep(xs, pool), k);
      var tail := xs[1..];
      assert Distinct(tail);
      if xs[0] in pool && k > 0 {
        FirstKeptNoSkip(tail, pool, k - 1);
        forall i, j | 0 <= i < j < |xs| && xs[j] in r && xs[i] in pool ensures xs[i] in r {
          if i > 0 {
            assert xs[j] != xs[0];
            assert xs[j] == tail[j - 1] && xs[i] == tail[i - 1];
            assert tail[j - 1] in Take(Keep(tail, pool), k - 1);
          }
        }
      } else if xs[0] !in pool {
        FirstKeptNoSkip(tail, pool, k);
        forall i, j | 0 <= i < j < |xs| && xs[j] in r && xs[i] in pool ensures xs[i] in r {
          assert xs[j] == tail[j - 1] && xs[i] == tail[i - 1];
        }
      }
    }
  }

  /** The header-only choice: the preferred columns the header has, in
      preference order, or failing that the columns that hold numbers in a
      prefix of the file, in header order; at most three either way. */
  function SelectColumns(header: seq<string>, prefixNumeric: set<string>): (r: seq<string>)
  {
    var preferred := Keep(PreferredColumns, set c | c in header);
    if |preferred| > 0 then Take(preferred, MaxColumns)
    else Take(Keep(header, prefixNumeric), MaxColumns)
  }

  lemma PreferredDistinct()
    ensures Distinct(PreferredColumns)
  {
  }

  /** When the header has a preferred column, the selection is the first
      up to three preferred columns the header has, in preference order and
      without gaps. */
  lemma SelectPreferred(header: seq<string>, prefixNumeric: set<string>)
    requires exists c :: c in PreferredColumns && c in header
    ensures var r := SelectColumns(header, prefixNumeric);
      && 0 < |r| <= MaxColumns
      && (forall c :: c in r ==> c in header)
      && Subseq(r, PreferredColumns)
      && (forall i, j :: (0 <= i < j < |PreferredColumns| && PreferredColumns[j] in r && PreferredColumns[i] in header)
            ==> PreferredColumns[i] in r)
      && (|r| < MaxColumns ==> forall c :: c in PreferredColumns && c in header ==> c in r)
  {
    var headerSet := set c | c in header;
    var preferred := Keep(PreferredColumns, headerSet);
    var c :| c in PreferredColumns && c in header;
    assert c in preferred;
    assert SelectColumns(header, prefixNumeric) == Take(preferred, MaxColumns);
    FirstKeptFacts(PreferredColumns, headerSet, MaxColumns);
    PreferredDistinct();
    FirstKeptNoSkip(PreferredColumns, headerSet, MaxColumns);
  }

  /** Without a preferred column, the selection is the first up to three
      columns that hold numbers in the file's first rows, in header order:
      with distinct column names, none is skipped in favour of a later one. */
  lemma SelectNumeric(header: seq<string>, prefixNumeric: set<string>)
    requires forall c :: c in PreferredColumns ==> c !in header
    ensures var r := SelectColumns(header, prefixNumeric);
      && |r| <= MaxColumns
      && (forall c :: c in r ==> c in header && c in prefixNumeric)
      && Subseq(r, header)
      && (Distinct(header) ==>
            forall i, j :: 0 <= i < j < |header| && header[j] in r && header[i] in prefixNumeric ==> header[i] in r)
      && (|r| < MaxColumns ==> forall c :: c in header && c in prefixNumeric ==> c in r)
  {
    var headerSet := set c | c in header;
    var preferred := Keep(PreferredColumns, headerSet);
    assert forall c :: c !in preferred;
    NoMemberEmpty(preferred);
    assert SelectColumns(header, prefixNumeric) == Take(Keep(header, prefixNumeric), MaxColumns);
    FirstKeptFacts(header, prefixNumeric, MaxColumns);
    FirstKeptNoSkip(header, prefixNumeric, MaxColumns);
  }

  lemma NoMemberEmpty(s: seq<string>)
    ensures (forall c :: c !in s) ==> s == []
  {
    if |s| > 0 {
      assert s[0] in s;
    }
  }

  /** Either way, at most three columns, all from the header. */
  lemma SelectColumnsBounded(header: seq<string>, prefixNumeric: set<string>)
    ensures |SelectColumns(header, prefixNumeric)| <= MaxColumns
    ensures forall c :: c in SelectColumns(header, prefixNumeric) ==> c in header
  {
    if exists c :: c in PreferredColumns && c in header {
      SelectPreferred(header, prefixNumeric);
    } else {
      SelectNumeric(header, prefixNumeric);
    }
  }

  // ---------------------------------------------------------------------------
  // Chunks and the column fallback
  // ---------------------------------------------------------------------------

  /** One chunk as the reader yields it: its number of rows, its columns in
      order, and which of them hold numbers in this chunk. */
  datatype Chunk = Chunk(length: nat, columns: seq<string>, numeric: set<string>)

  /** A file the sampler cannot read, a file that yields no chunk, or a
      selected column that clashes with the row-number column the sampler
      adds to every frame. */
  datatype ChartError = Unreadable | NoChunks | RowNumberTaken

  /** When the header-only choice is empty: the first up to three numeric
      columns of the first chunk, in column order, or, when it has none, its
      first up to three columns of any kind. A file that yields no chunk is
      an error. */
  function FallbackColumns(chunks: seq<Chunk>): (r: Result<seq<string>, ChartError>)
    ensures r.Err? <==> |chunks| == 0
    ensures r.Err? ==> r.error == NoChunks
    ensures r.Ok? ==> |r.value| <= MaxColumns && Subseq(r.value, chunks[0].columns)
    ensures r.Ok? ==> (|r.value| == 0 <==> |chunks[0].columns| == 0)
    ensures r.Ok? && (exists c :: c in chunks[0].columns && c in chunks[0].numeric) ==>
      var cols := chunks[0].columns;
      && (forall c :: c in r.value ==> c in chunks[0].numeric)
      && (|r.value| < MaxColumns ==> forall c :: c in cols && c in chunks[0].numeric ==> c in r.value)
      && (Distinct(cols) ==>
            forall i, j :: 0 <= i < j < |cols| && cols[j] in r.value && cols[i] in chunks[0].numeric ==> cols[i] in r.value)
    ensures r.Ok? && (forall c :: c in chunks[0].columns ==> c !in chunks[0].numeric) ==>
      r.value == chunks[0].columns[..Min(MaxColumns, |chunks[0].columns|)]
  {
    if |chunks| == 0 then Err(NoChunks)
    else
      var cols := chunks[0].columns;
      var numeric := Keep(cols, chunks[0].numeric);
      FirstKeptFacts(cols, chunks[0].numeric, MaxColumns);
      FirstKeptNoSkip(cols, chunks[0].numeric, MaxColumns);
      if |numeric| > 0 then
        assert numeric[0] in cols;
        Ok(Take(numeric, MaxColumns))
      else
        assert forall c :: c in cols ==> c !in chunks[0].numeric;
        PrefixSubseq(cols, Min(MaxColumns, |cols|));
        assert Take(cols, MaxColumns) == cols[..Min(MaxColumns, |cols|)];
        Ok(Take(cols, MaxColumns))
  }

  /** A prefix is a subsequence. */
  lemma {:induction false} PrefixSubseq(xs: seq<string>, k: nat)
    requires k <= |xs|
    ensures Subseq(xs[..k], xs)
    decreases |xs|
  {
    if k > 0 {
      assert xs[..k][0] == xs[0] && xs[..k][1..] == xs[1..][..k - 1];
      PrefixSubseq(xs[1..], k - 1);
    }
  }

  /** The columns a chart uses: the header-only choice, or the fallback
      when that is empty. */
  function ChooseColumns(header: seq<string>, prefixNumeric: set<string>, chunks: seq<Chunk>)
    : (r: Result<seq<string>, ChartError>)
    ensures SelectColumns(header, prefixNumeric) != [] ==> r == Ok(SelectColumns(header, prefixNumeric))
    ensures SelectColumns(header, prefixNumeric) == [] ==> r == FallbackColumns(chunks)
    ensures r.Ok? ==> |r.value| <= MaxColumns
    ensures r.Err? <==> SelectColumns(header, prefixNumeric) == [] && |chunks| == 0
    ensures r.Err? ==> r.error == NoChunks
  {
    var selected := SelectColumns(header, prefixNumeric);
    SelectColumnsBounded(header, prefixNumeric);
    if |selected| > 0 then Ok(selected) else FallbackColumns(chunks)
  }

  // ---------------------------------------------------------------------------
  // Evenly spaced indices
  // ---------------------------------------------------------------------------

  /** The i-th of `take` evenly spaced indices over 0..len-1, rounded down:
      exact integer interpolation standing for `linspace` with an integer
      result type. */
  function LinspaceIndex(i: nat, len: nat, take: nat): nat
  {
    if take <= 1 || len == 0 then 0 else i * (len - 1) / (take - 1)
  }

  lemma DivAtLeast(x: int, d: int, m: int)
    requires d > 0 && x >= m * d
    ensures x / d >= m
  {
    var q := x / d;
    assert x == d * q + x % d;
    assert d * q > d * (m - 1);
    assert d * (q - (m - 1)) > 0;
  }

  lemma DivAtMost(x: int, d: int, m: int)
    requires d > 0 && 0 <= x <= m * d
    ensures x / d <= m
  {
    var q := x / d;
    assert x == d * q + x % d;
    assert d * q <= d * m;
    assert d * (m - q) >= 0;
  }

  /** Multiplying by a positive number and dividing by it cancel. */
  lemma MulDivCancel(a: int, d: int)
    requires d > 0
    ensures (a * d) / d == a
  {
    DivAtLeast(a * d, d, a);
    if a >= 0 {
      DivAtMost(a * d, d, a);
    } else {
      var q := (a * d) / d;
      assert a * d == d * q + (a * d) % d;
      assert d * (a - q) >= 0;
      assert d * (a - q) < d;
    }
  }

  lemma {:induction false} MulAtMost(a: nat, b: nat, c: nat)
    requires a <= b
    ensures a * c <= c * b
  {
    if c > 0 {
      MulAtMost(a, b, c - 1);
      assert a * c == a * (c - 1) + a;
      assert c * b == (c - 1) * b + b;
    }
  }

  /** Every index lies in 0..len-1. */
  lemma LinspaceInBounds(i: nat, len: nat, take: nat)
    requires len > 0 && i < take
    ensures LinspaceIndex(i, len, take) <= len - 1
  {
    if take > 1 {
      MulAtMost(i, take - 1, len - 1);
      DivAtMost(i * (len - 1), take - 1, len - 1);
    }
  }

  /** With no more indices than positions, consecutive indices differ. */
  lemma LinspaceStep(i: nat, len: nat, take: nat)
    requires 1 < take <= len && i + 1 < take
    ensures LinspaceIndex(i, len, take) < LinspaceIndex(i + 1, len, take)
  {
    var d := take - 1;
    var a := i * (len - 1);
    var q := a / d;
    assert a == d * q + a % d;
    assert (i + 1) * (len - 1) == a + (len - 1);
    assert a + (len - 1) >= (q + 1) * d;
    DivAtLeast(a + (len - 1), d, q + 1);
  }

  /** With no more indices than positions, the indices strictly increase. */
  lemma {:induction false} LinspaceIncreasing(i: nat, j: nat, len: nat, take: nat)
    requires take <= len && i < j < take
    ensures LinspaceIndex(i, len, take) < LinspaceIndex(j, len, take)
    decreases j - i
  {
    LinspaceStep(i, len, take);
    if i + 1 < j {
      LinspaceIncreasing(i + 1, j, len, take);
    }
  }

  /** With at least two indices, the first is 0 and the last is len-1. */
  lemma LinspaceEndpoints(len: nat, take: nat)
    requires 2 <= take && len > 0
    ensures LinspaceIndex(0, len, take) == 0
    ensures LinspaceIndex(take - 1, len, take) == len - 1
  {
    assert (take - 1) * (len - 1) == (len - 1) * (take - 1);
    MulDivCancel(len - 1, take - 1);
  }

  /** Taking as many indices as positions takes every position. */
  lemma LinspaceAll(i: nat, len: nat)
    requires i < len
    ensures LinspaceIndex(i, len, len) == i
  {
    if len > 1 {
      MulDivCancel(i, len - 1);
    }
  }

  // ---------------------------------------------------------------------------
  // Chunked sampling
  // ---------------------------------------------------------------------------

  /** The chunk keeps some rows once non-numeric columns are dropped: it has
      rows, and one of the selected columns is numeric in it. */
  predicate Contributes(c: Chunk, selected: seq<string>)
  {
    c.length > 0 && exists s :: s in selected && s in c.columns && s in c.numeric
  }

  function TotalLength(chunks: seq<Chunk>): nat
  {
    if |chunks| == 0 then 0 else chunks[0].length + TotalLength(chunks[1..])
  }

  /** The rows of the chunks that contribute. */
  function NumericRows(chunks: seq<Chunk>, selected: seq<string>): nat
  {
    if |chunks| == 0 then 0
    else (if Contributes(chunks[0], selected) then chunks[0].length else 0) + NumericRows(chunks[1..], selected)
  }

  /** The absolute, 1-based row numbers of `take` evenly spaced rows of a
      chunk that starts after `offset` rows. */
  function SampleRows(offset: nat, len: nat, take: nat): (rows: seq<int>)
    ensures |rows| == take
  {
    seq(take, i requires 0 <= i < take => offset + LinspaceIndex(i, len, take) + 1)
  }

  /** The row numbers of each chunk's sample, in chunk order, given the
      budget still open and the rows before the first chunk. */
  function Sample(chunks: seq<Chunk>, selected: seq<string>, budget: int, offset: nat): seq<seq<int>>
  {
    if |chunks| == 0 then []
    else
      var c := chunks[0];
      if Contributes(c, selected) && budget > 0 then
        var take := Min(c.length, budget);
        [SampleRows(offset, c.length, take)] + Sample(chunks[1..], selected, budget - take, offset + c.length)
      else Sample(chunks[1..], selected, budget, offset + c.length)
  }

  function Flatten(frames: seq<seq<int>>): seq<int>
  {
    if |frames| == 0 then [] else frames[0] + Flatten(frames[1..])
  }

  predicate StrictlyIncreasing(rows: seq<int>)
  {
    forall i, j :: 0 <= i < j < |rows| ==> rows[i] < rows[j]
  }

  /** Every row number lies in lo..hi. */
  predicate Within(rows: seq<int>, lo: int, hi: int)
  {
    forall i :: 0 <= i < |rows| ==> lo <= rows[i] <= hi
  }

  /** One chunk's sample: strictly increasing row numbers within the chunk. */
  lemma SampleRowsFacts(offset: nat, len: nat, take: nat)
    requires 0 < take <= len
    ensures StrictlyIncreasing(SampleRows(offset, len, take))
    ensures Within(SampleRows(offset, len, take), offset + 1, offset + len)
  {
    var rows := SampleRows(offset, len, take);
    forall i, j | 0 <= i < j < take ensures rows[i] < rows[j] {
      LinspaceIncreasing(i, j, len, take);
    }
    forall i | 0 <= i < take ensures offset + 1 <= rows[i] <= offset + len {
      LinspaceInBounds(i, len, take);
    }
  }

  lemma ConcatIncreasing(a: seq<int>, b: seq<int>, lo: int, mid: int, hi: int)
    requires StrictlyIncreasing(a) && StrictlyIncreasing(b)
    requires Within(a, lo, mid) && Within(b, mid + 1, hi) && lo <= mid + 1 && mid <= hi
    ensures StrictlyIncreasing(a + b) && Within(a + b, lo, hi)
  {
    forall i, j | 0 <= i < j < |a + b| ensures (a + b)[i] < (a + b)[j] {
      if j < |a| {
      } else if i >= |a| {
        assert (a + b)[i] == b[i - |a|] && (a + b)[j] == b[j - |a|];
      } else {
        assert (a + b)[j] == b[j - |a|];
      }
    }
    forall i | 0 <= i < |a + b| ensures lo <= (a + b)[i] <= hi {
      if i >= |a| {
        assert (a + b)[i] == b[i - |a|];
      }
    }
  }

  /** The sample holds as many rows as the budget allows and the numeric
      rows provide, and every frame is non-empty. */
  lemma {:induction false} SampleCount(chunks: seq<Chunk>, selected: seq<string>, budget: int, offset: nat)
    ensures |Flatten(Sample(chunks, selected, budget, offset))| == Min(Max(budget, 0), NumericRows(chunks, selected))
    ensures forall k :: 0 <= k < |Sample(chunks, selected, budget, offset)| ==>
      |Sample(chunks, selected, budget, offset)[k]| > 0
    decreases |chunks|
  {
    if |chunks| > 0 {
      var c := chunks[0];
      if Contributes(c, selected) && budget > 0 {
        var take := Min(c.length, budget);
        var head := SampleRows(offset, c.length, take);
        SampleCount(chunks[1..], selected, budget - take, offset + c.length);
        var rest := Sample(chunks[1..], selected, budget - take, offset + c.length);
        assert Sample(chunks, selected, budget, offset) == [head] + rest;
        assert ([head] + rest)[1..] == rest;
        assert Flatten([head] + rest) == head + Flatten(rest);
      } else {
        SampleCount(chunks[1..], selected, budget, offset + c.length);
      }
    }
  }

  /** The sample's row numbers strictly increase and lie within the rows read. */
  lemma {:induction false} SampleOrdered(chunks: seq<Chunk>, selected: seq<string>, budget: int, offset: nat)
    ensures StrictlyIncreasing(Flatten(Sample(chunks, selected, budget, offset)))
    ensures Within(Flatten(Sample(chunks, selected, budget, offset)), offset + 1, offset + TotalLength(chunks))
    decreases |chunks|
  {
    if |chunks| > 0 {
      var c := chunks[0];
      if Contributes(c, selected) && budget > 0 {
        var take := Min(c.length, budget);
        var head := SampleRows(offset, c.length, take);
        SampleOrdered(chunks[1..], selected, budget - take, offset + c.length);
        SampleRowsFacts(offset, c.length, take);
        var rest := Sample(chunks[1..], selected, budget - take, offset + c.length);
        assert Sample(chunks, selected, budget, offset) == [head] + rest;
        assert ([head] + rest)[1..] == rest;
        assert Flatten([head] + rest) == head + Flatten(rest);
        ConcatIncreasing(head, Flatten(rest), offset + 1, offset + c.length, offset + TotalLength(chunks));
      } else {
        SampleOrdered(chunks[1..], selected, budget, offset + c.length);
      }
    }
  }

  /** The every-row sample: each numeric row's number, in order. */
  function AllNumericRows(chunks: seq<Chunk>, selected: seq<string>, offset: nat): seq<int>
  {
    if |chunks| == 0 then []
    else
      (if Contributes(chunks[0], selected) then seq(chunks[0].length, i => offset + i + 1) else [])
      + AllNumericRows(chunks[1..], selected, offset + chunks[0].length)
  }

  /** Sampling a whole chunk takes each of its rows. */
  lemma SampleWholeChunk(offset: nat, len: nat)
    ensures SampleRows(offset, len, len) == seq(len, i => offset + i + 1)
  {
    forall i | 0 <= i < len ensures SampleRows(offset, len, len)[i] == offset + i + 1 {
      LinspaceAll(i, len);
    }
  }

  /** A budget that covers every numeric row samples every numeric row. */
  lemma {:induction false} UnderBudgetTakesAll(chunks: seq<Chunk>, selected: seq<string>, budget: int, offset: nat)
    requires budget >= NumericRows(chunks, selected)
    ensures Flatten(Sample(chunks, selected, budget, offset)) == AllNumericRows(chunks, selected, offset)
    decreases |chunks|
  {
    if |chunks| > 0 {
      var c := chunks[0];
      if Contributes(c, selected) && budget > 0 {
        assert Min(c.length, budget) == c.length;
        SampleWholeChunk(offset, c.length);
        var head := seq(c.length, i => offset + i + 1);
        UnderBudgetTakesAll(chunks[1..], selected, budget - c.length, offset + c.length);
        var rest := Sample(chunks[1..], selected, budget - c.length, offset + c.length);
        assert Sample(chunks, selected, budget, offset) == [head] + rest;
        assert ([head] + rest)[1..] == rest;
      } else {
        UnderBudgetTakesAll(chunks[1..], selected, budget, offset + c.length);
      }
    }
  }

  lemma {:induction false} TotalLengthAppend(a: seq<Chunk>, b: seq<Chunk>)
    ensures TotalLength(a + b) == TotalLength(a) + TotalLength(b)
    decreases |a|
  {
    if |a| > 0 {
      assert (a + b)[1..] == a[1..] + b;
      TotalLengthAppend(a[1..], b);
    } else {
      assert a + b == b;
    }
  }

  lemma {:induction false} FlattenAppend(a: seq<seq<int>>, b: seq<seq<int>>)
    ensures Flatten(a + b) == Flatten(a) + Flatten(b)
    decreases |a|
  {
    if |a| > 0 {
      assert (a + b)[1..] == a[1..] + b;
      FlattenAppend(a[1..], b);
    } else {
      assert a + b == b;
    }
  }

  /** The sample is empty exactly when the budget or the numeric rows are. */
  lemma SampleEmptyIff(chunks: seq<Chunk>, selected: seq<string>, budget: int, offset: nat)
    ensures Sample(chunks, selected, budget, offset) == [] <==> budget <= 0 || NumericRows(chunks, selected) == 0
  {
    SampleCount(chunks, selected, budget, offset);
    var frames := Sample(chunks, selected, budget, offset);
    if frames != [] {
      assert |frames[0]| > 0;
      assert Flatten(frames) == frames[0] + Flatten(frames[1..]);
    }
  }

  /** The name of the row-number column each sampled frame gets. */
  const RowNumberColumn: string := "row_number"

  /** What the sampling loop leaves: the rows read, the rows sampled, and
      each frame's row numbers. */
  datatype Sampled = Sampled(totalRows: nat, sampledRows: nat, frames: seq<seq<int>>)

  /** The sampling loop over the chunks read with the selected columns: it
      counts every chunk's rows, skips chunks without numeric data, and while
      the budget lasts takes evenly spaced rows of each other chunk, tagged
      with their absolute 1-based row numbers. Tagging fails at the first
      frame when a selected column already has the row-number column's name. */
  method SampleChunks(chunks: seq<Chunk>, selected: seq<string>, samplePoints: int)
    returns (r: Result<Sampled, ChartError>)
    ensures r.Err? <==> RowNumberColumn in selected && Sample(chunks, selected, samplePoints, 0) != []
    ensures r.Err? ==> r.error == RowNumberTaken
    ensures r.Ok? ==> r.value.totalRows == TotalLength(chunks)
    ensures r.Ok? ==> r.value.frames == Sample(chunks, selected, samplePoints, 0)
    ensures r.Ok? ==>
      r.value.sampledRows == |Flatten(r.value.frames)| == Min(Max(samplePoints, 0), NumericRows(chunks, selected))
    ensures r.Ok? ==>
      StrictlyIncreasing(Flatten(r.value.frames)) && Within(Flatten(r.value.frames), 1, r.value.totalRows)
    ensures r.Ok? ==> (r.value.frames == [] <==> r.value.sampledRows == 0)
  {
    var totalRows, sampledRows := 0, 0;
    var offset := 0;
    var frames := [];
    for k := 0 to |chunks|
      invariant totalRows == offset == TotalLength(chunks[..k])
      invariant sampledRows == |Flatten(frames)|
      invariant frames + Sample(chunks[k..], selected, samplePoints - sampledRows, offset)
             == Sample(chunks, selected, samplePoints, 0)
      invariant RowNumberColumn in selected ==> frames == []
    {
      var c := chunks[k];
      assert chunks[k..][0] == c && chunks[k..][1..] == chunks[k + 1..];
      TotalLengthAppend(chunks[..k], [c]);
      assert chunks[..k + 1] == chunks[..k] + [c];
      totalRows := totalRows + c.length;
      if Contributes(c, selected) && sampledRows < samplePoints {
        var remaining := samplePoints - sampledRows;
        var take := Min(c.length, remaining);
        if RowNumberColumn in selected {
          assert Sample(chunks[k..], selected, remaining, offset) != [];
          return Err(RowNumberTaken);
        }
        var rows := SampleRows(offset, c.length, take);
        FlattenAppend(frames, [rows]);
        assert Flatten([rows]) == rows + Flatten([]);
        frames := frames + [rows];
        sampledRows := sampledRows + |rows|;
      }
      offset := offset + c.length;
    }
    assert chunks[..|chunks|] == chunks;
    SampleCount(chunks, selected, samplePoints, 0);
    SampleOrdered(chunks, selected, samplePoints, 0);
    if frames != [] {
      assert |frames[0]| > 0;
      FlattenAppend([frames[0]], frames[1..]);
      assert [frames[0]] + frames[1..] == frames;
    }
    return Ok(Sampled(totalRows, sampledRows, frames));
  }

  // ---------------------------------------------------------------------------
  // The chart result
  // ---------------------------------------------------------------------------

  /** A file as the sampler reads it: the encodings under which its header
      parses, the header, the columns that hold numbers in its first rows,
      and the chunks the reader yields. */
  datatype ChartSource = ChartSource(
    readable: set<string>,
    header: seq<string>,
    prefixNumeric: set<string>,
    chunks: seq<Chunk>)

  datatype ChartResult = ChartResult(rowCount: nat, columnsUsed: seq<string>, encoding: string)

  /** Chart generation up to the figure: the encoding, the columns, the
      sample, and the result. An empty sample yields an empty column list;
      otherwise the chart uses the selected columns. Sampling fails when a
      selected column is named like the row-number column and some row is
      sampled. */
  method GenerateChart(src: ChartSource, samplePoints: int) returns (r: Result<ChartResult, ChartError>)
    ensures FirstAccepted(ChartEncodings, src.readable).None? ==> r == Err(Unreadable)
    ensures FirstAccepted(ChartEncodings, src.readable).Some? ==>
      (r.Err? <==> ChooseColumns(src.header, src.prefixNumeric, src.chunks).Err?
                   || RowNumberClash(ChooseColumns(src.header, src.prefixNumeric, src.chunks).value, src.chunks, samplePoints))
    ensures r == Err(Unreadable) <==> FirstAccepted(ChartEncodings, src.readable).None?
    ensures r == Err(NoChunks) <==>
      FirstAccepted(ChartEncodings, src.readable).Some? && ChooseColumns(src.header, src.prefixNumeric, src.chunks).Err?
    ensures r == Err(RowNumberTaken) <==>
      && FirstAccepted(ChartEncodings, src.readable).Some?
      && ChooseColumns(src.header, src.prefixNumeric, src.chunks).Ok?
      && RowNumberClash(ChooseColumns(src.header, src.prefixNumeric, src.chunks).value, src.chunks, samplePoints)
    ensures r.Ok? ==>
      && r.value.encoding == ChartEncodings[FirstAccepted(ChartEncodings, src.readable).value]
      && r.value.rowCount == TotalLength(src.chunks)
      && |r.value.columnsUsed| <= MaxColumns
      && (r.value.columnsUsed == [] <==>
            samplePoints <= 0 || NumericRows(src.chunks, ChooseColumns(src.header, src.prefixNumeric, src.chunks).value) == 0)
      && (r.value.columnsUsed != [] ==> r.value.columnsUsed == ChooseColumns(src.header, src.prefixNumeric, src.chunks).value)
  {
    var detected := FirstAccepted(ChartEncodings, src.readable);
    if detected.None? {
      return Err(Unreadable);
    }
    var encoding := ChartEncodings[detected.value];
    var chosen := ChooseColumns(src.header, src.prefixNumeric, src.chunks);
    if chosen.Err? {
      return Err(chosen.error);
    }
    var selected := chosen.value;
    SampleEmptyIff(src.chunks, selected, samplePoints, 0);
    var sampled := SampleChunks(src.chunks, selected, samplePoints);
    if sampled.Err? {
      return Err(sampled.error);
    }
    if sampled.value.frames == [] {
      return Ok(ChartResult(sampled.value.totalRows, [], encoding));
    }
    if selected == [] {
      NoSelectedNoRows(src.chunks);
    }
    return Ok(ChartResult(sampled.value.totalRows, selected, encoding));
  }

  /** Some row is sampled while a selected column is named like the
      row-number column. */
  predicate RowNumberClash(selected: seq<string>, chunks: seq<Chunk>, samplePoints: int)
  {
    RowNumberColumn in selected && samplePoints > 0 && NumericRows(chunks, selected) > 0
  }

  /** With no column selected, no chunk contributes. */
  lemma {:induction false} NoSelectedNoRows(chunks: seq<Chunk>)
    ensures NumericRows(chunks, []) == 0
    decreases |chunks|
  {
    if |chunks| > 0 {
      NoSelectedNoRows(chunks[1..]);
    }
  }
}

/**
  Regrouping the cells of the moon-phase table into records: the header
  row's text gives the column names, and every run of as many consecutive
  cells as there are names becomes one record.
*/
module Table {
  import opened Lines
  import opened Records
  import opened Arith

  /** What the parsed HTML table yields: the header row's text and the text of every cell, in document order. */
  datatype Page = Page(headerRow: string, cells: seq<string>)

  /** Consecutive groups of `n` cells; a trailing group shorter than `n` is dropped. */
  function Chunks(cells: seq<string>, n: nat): (groups: seq<seq<string>>)
    requires n > 0
    decreases |cells|
  {
    if |cells| < n then [] else [cells[..n]] + Chunks(cells[n..], n)
  }

  /** There are `|cells| / n` groups, rounded down. */
  lemma {:induction false} ChunkCount(cells: seq<string>, n: nat)
    requires n > 0
    ensures |Chunks(cells, n)| == |cells| / n
    decreases |cells|
  {
    if |cells| >= n {
      ChunkCount(cells[n..], n);
      DivStep(|cells|, n);
    } else {
      assert |cells| / n == 0;
    }
  }

  /** Group `k` is the slice of cells from `k * n` to `k * n + n`. */
  lemma {:induction false} ChunksAt(cells: seq<string>, n: nat, k: nat)
    requires n > 0
    requires k < |Chunks(cells, n)|
    ensures k * n + n <= |cells|
    ensures Chunks(cells, n)[k] == cells[k * n..k * n + n]
    decreases k
  {
    if k > 0 {
      var rest := cells[n..];
      assert Chunks(cells, n)[k] == Chunks(rest, n)[k - 1];
      ChunksAt(rest, n, k - 1);
      MulStep(k, n);
      assert rest[(k - 1) * n..(k - 1) * n + n] == cells[k * n..k * n + n];
    }
  }

  /** Appending one full group to whole groups appends one chunk. */
  lemma {:induction false} ChunksAppend(done: seq<string>, group: seq<string>, n: nat)
    requires n > 0
    requires |done| % n == 0
    requires |group| == n
    ensures Chunks(done + group, n) == Chunks(done, n) + [group]
    decreases |done|
  {
    if |done| == 0 {
      assert done + group == group;
      assert group[..n] == group;
      assert Chunks(group[n..], n) == [];
    } else {
      if |done| < n {
        DivModUnique(|done|, n, 0, |done|);
      }
      assert (done + group)[..n] == done[..n];
      assert (done + group)[n..] == done[n..] + group;
      ModStep(|done| - n, n);
      ChunksAppend(done[n..], group, n);
    }
  }

  /** Cells after the last whole group never make a chunk. */
  lemma {:induction false} ChunksDropTail(done: seq<string>, rest: seq<string>, n: nat)
    requires n > 0
    requires |done| % n == 0
    requires |rest| < n
    ensures Chunks(done + rest, n) == Chunks(done, n)
    decreases |done|
  {
    if |done| == 0 {
      assert done + rest == rest;
    } else {
      if |done| < n {
        DivModUnique(|done|, n, 0, |done|);
      }
      assert (done + rest)[..n] == done[..n];
      assert (done + rest)[n..] == done[n..] + rest;
      ModStep(|done| - n, n);
      ChunksDropTail(done[n..], rest, n);
    }
  }

  /** One record per group: `dict(zip(headers, group))`. */
  function ZipChunks(headers: seq<string>, groups: seq<seq<string>>): (records: seq<Record>)
  {
    seq(|groups|, k requires 0 <= k < |groups| => ZipDict(headers, groups[k]))
  }

  /** The records of a cell sequence: chunk it by the header count, then zip each chunk with the headers. */
  function Regroup(headers: seq<string>, cells: seq<string>): (records: seq<Record>)
    requires |headers| > 0
    ensures |records| == |cells| / |headers|
  {
    ChunkCount(cells, |headers|);
    ZipChunks(headers, Chunks(cells, |headers|))
  }

  /**
    The records a page yields: the header row split on new lines, then the
    cells regrouped. There is one record per full run of header-count cells,
    and every record has the header names as its keys, so none is empty.
  */
  function Scrape(page: Page): (records: seq<Record>)
    ensures |records| == |page.cells| / |Split(page.headerRow, NEW_LINE)|
    ensures forall k :: 0 <= k < |records| ==> records[k].Keys == set h | h in Split(page.headerRow, NEW_LINE)
    ensures forall k :: 0 <= k < |records| ==> records[k] != map[]
  {
    RegroupKeys(Split(page.headerRow, NEW_LINE), page.cells);
    Regroup(Split(page.headerRow, NEW_LINE), page.cells)
  }

  /** Whole groups of cells followed by one more group yield one more record, at the end. */
  lemma RegroupAppend(headers: seq<string>, done: seq<string>, group: seq<string>)
    requires |headers| > 0
    requires |done| % |headers| == 0
    requires |group| == |headers|
    ensures Regroup(headers, done + group) == Regroup(headers, done) + [ZipDict(headers, group)]
  {
    ChunksAppend(done, group, |headers|);
  }

  /**
    The regrouping loop of the scraper: cells are appended to the buffer
    `tdData`, and when its length is a multiple of the header count it is
    zipped into a record, appended to `finalData` and cleared.
  */
  method ParseTable(page: Page) returns (finalData: seq<Record>)
    ensures finalData == Scrape(page)
    ensures |finalData| == |page.cells| / |Split(page.headerRow, NEW_LINE)|
  {
    var headers := Split(page.headerRow, NEW_LINE);
    var n := |headers|;
    var cells := page.cells;
    var tdData: seq<string> := [];
    finalData := [];
    ghost var emitted := 0;
    for i := 0 to |cells|
      invariant emitted <= i
      invariant emitted % n == 0
      invariant tdData == cells[emitted..i]
      invariant |tdData| < n
      invariant finalData == Regroup(headers, cells[..emitted])
    {
      tdData := tdData + [cells[i]];
      ModOfPositiveAtMost(|tdData|, n);
      if |tdData| % n == 0 {
        ModStep(emitted, n);
        assert cells[..i + 1] == cells[..emitted] + tdData;
        RegroupAppend(headers, cells[..emitted], tdData);
        finalData := finalData + [ZipDict(headers, tdData)];
        tdData := [];
        emitted := i + 1;
      }
    }
    assert cells == cells[..emitted] + tdData;
    ChunksDropTail(cells[..emitted], tdData, n);
  }

  /**
    Positional correspondence: record `k` maps header `j` to cell
    `k * n + j`, provided header `j` is not repeated later in the header list.
  */
  lemma RecordAt(headers: seq<string>, cells: seq<string>, k: nat, j: nat)
    requires |headers| > 0
    requires k < |cells| / |headers|
    requires j < |headers|
    requires LastOccurrence(headers, |headers|, j)
    ensures k * |headers| + j < |cells|
    ensures |Regroup(headers, cells)| == |cells| / |headers|
    ensures headers[j] in Regroup(headers, cells)[k]
    ensures Regroup(headers, cells)[k][headers[j]] == cells[k * |headers| + j]
  {
    var n := |headers|;
    ChunkCount(cells, n);
    ChunksAt(cells, n, k);
    var group := cells[k * n..k * n + n];
    assert Regroup(headers, cells)[k] == ZipDict(headers, group);
    ZipDictAt(headers, group, j);
  }

  /**
    Every record has exactly the header names as keys, so exactly one entry
    per distinct header; with a repeated header it has fewer keys than
    there are headers.
  */
  lemma RecordKeys(headers: seq<string>, cells: seq<string>, k: nat)
    requires |headers| > 0
    requires k < |cells| / |headers|
    ensures Regroup(headers, cells)[k].Keys == set h | h in headers
    ensures |Regroup(headers, cells)[k]| <= |headers|
    ensures |Regroup(headers, cells)[k]| == |headers| <==> Distinct(headers)
  {
    var n := |headers|;
    var group := RecordIsZip(headers, cells, k);
    var r := ZipDict(headers, group);
    assert Min(n, |group|) == n;
    assert r.Keys == set h | h in headers by {
      ZipDictKeys(headers, group);
      forall h | h in headers ensures h in r.Keys {
        var j :| 0 <= j < n && headers[j] == h;
      }
    }
    assert |r| <= n && (|r| == n <==> Distinct(headers)) by {
      ZipDictSize(headers, group);
      assert headers[..Min(n, |group|)] == headers;
    }
  }

  /** Every record of a regrouping has the header names as keys and is therefore not empty. */
  lemma RegroupKeys(headers: seq<string>, cells: seq<string>)
    requires |headers| > 0
    ensures forall k :: 0 <= k < |Regroup(headers, cells)| ==> Regroup(headers, cells)[k].Keys == set h | h in headers
    ensures forall k :: 0 <= k < |Regroup(headers, cells)| ==> Regroup(headers, cells)[k] != map[]
  {
    var records := Regroup(headers, cells);
    forall k | 0 <= k < |records|
      ensures records[k].Keys == set h | h in headers
      ensures records[k] != map[]
    {
      RecordKeys(headers, cells, k);
      assert headers[0] in records[k];
    }
  }

  /** Record `k` is the headers zipped with the `k`-th group of cells. */
  lemma RecordIsZip(headers: seq<string>, cells: seq<string>, k: nat) returns (group: seq<string>)
    requires |headers| > 0
    requires k < |cells| / |headers|
    ensures k * |headers| + |headers| <= |cells|
    ensures group == cells[k * |headers|..k * |headers| + |headers|]
    ensures |group| == |headers|
    ensures Regroup(headers, cells)[k] == ZipDict(headers, group)
  {
    var n := |headers|;
    ChunkCount(cells, n);
    ChunksAt(cells, n, k);
    group := cells[k * n..k * n + n];
  }

  /**
    A header name that repeats keeps the value of its later cell, and the
    record then has fewer keys than there are headers.
  */
  lemma RepeatedHeaderKeepsLater(headers: seq<string>, cells: seq<string>, k: nat, i: nat, j: nat)
    requires |headers| > 0
    requires k < |cells| / |headers|
    requires i < j < |headers|
    requires headers[i] == headers[j]
    requires LastOccurrence(headers, |headers|, j)
    ensures k * |headers| + j < |cells|
    ensures headers[i] in Regroup(headers, cells)[k]
    ensures Regroup(headers, cells)[k][headers[i]] == cells[k * |headers| + j]
    ensures |Regroup(headers, cells)[k]| < |headers|
  {
    RecordAt(headers, cells, k, j);
    RecordKeys(headers, cells, k);
    DistinctPositions(headers);
  }

  /** The chunks of a prefix of the cells are a prefix of the chunks of all the cells. */
  lemma {:induction false} ChunksPrefix(cells: seq<string>, n: nat, m: nat)
    requires n > 0
    requires m <= |cells|
    ensures Chunks(cells[..m], n) <= Chunks(cells, n)
    decreases |cells|
  {
    if m >= n {
      var prefix := cells[..m];
      assert prefix[..n] == cells[..n];
      assert prefix[n..] == cells[n..][..m - n];
      ChunksPrefix(cells[n..], n, m - n);
    }
  }

  /**
    Streaming: the records emitted after any prefix of the cells are a
    prefix of the records of all the cells, so the record list only grows
    by appending.
  */
  lemma RegroupPrefix(headers: seq<string>, cells: seq<string>, m: nat)
    requires |headers| > 0
    requires m <= |cells|
    ensures Regroup(headers, cells[..m]) <= Regroup(headers, cells)
  {
    ChunksPrefix(cells, |headers|, m);
  }
}

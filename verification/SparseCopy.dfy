/** Copying a file without filling its holes (src/lib/platform/filesystem.cpp). */
module SparseCopy {
  import opened Results
  import opened Units

  const ANSWER_ROWS: nat := 64

  /** A run of bytes the file occupies on its volume. */
  datatype Range = Range(offset: nat, length: nat)

  function End(r: Range): nat {
    r.offset + r.length
  }

  // ---- What the volume knows -------------------------------------------------------

  /** The runs of a file of `length` bytes: not empty, in order, apart, and inside the file. */
  predicate Layout(ranges: seq<Range>, length: nat) {
    && (forall k | 0 <= k < |ranges| :: ranges[k].length > 0 && End(ranges[k]) <= length)
    && (forall j, k | 0 <= j < k < |ranges| :: End(ranges[j]) <= ranges[k].offset)
  }

  /** The part of a run from `offset` on, or nothing. */
  function FromOffset(r: Range, offset: nat): seq<Range> {
    if End(r) <= offset then []
    else if offset <= r.offset then [r]
    else [Range(offset, End(r) - offset)]
  }

  /** What an unbounded query from `offset` answers. */
  function Query(ranges: seq<Range>, offset: nat): seq<Range> {
    if ranges == [] then [] else FromOffset(ranges[0], offset) + Query(ranges[1..], offset)
  }

  lemma {:induction false} QueryFromTheStart(ranges: seq<Range>, length: nat)
    requires Layout(ranges, length)
    ensures Query(ranges, 0) == ranges
  {
    if ranges != [] {
      QueryFromTheStart(ranges[1..], length);
    }
  }

  lemma {:induction false} QueryBeforeAll(ranges: seq<Range>, offset: nat, length: nat)
    requires Layout(ranges, length)
    requires forall k | 0 <= k < |ranges| :: offset <= ranges[k].offset
    ensures Query(ranges, offset) == ranges
  {
    if ranges != [] {
      QueryBeforeAll(ranges[1..], offset, length);
    }
  }

  /** A query that starts where a run ends answers the runs after it. */
  lemma {:induction false} QueryAfter(ranges: seq<Range>, n: nat, length: nat)
    requires Layout(ranges, length) && 0 < n <= |ranges|
    ensures Query(ranges, End(ranges[n - 1])) == ranges[n..]
  {
    var offset := End(ranges[n - 1]);
    assert End(ranges[0]) <= offset;
    if n == 1 {
      QueryBeforeAll(ranges[1..], offset, length);
    } else {
      QueryAfter(ranges[1..], n - 1, length);
      assert ranges[1..][n - 1..] == ranges[n..];
    }
  }

  // ---- The files ---------------------------------------------------------------------------

  /** Whether offset `i` lies in one of the runs. */
  predicate InRanges(ranges: seq<Range>, i: int) {
    exists k | 0 <= k < |ranges| :: ranges[k].offset <= i < End(ranges[k])
  }

  // How one query is answered: not at all, or with so many rows if there are as many left.
  datatype Reply = Broken | Rows(most: nat)

  /** The file to copy: its bytes, the runs its volume holds for it, whether it can be sized and opened, and how the
      queries for its runs are answered, one after the other. */
  datatype Source = Source(data: Bytes, layout: seq<Range>, opens: bool, replies: nat -> Reply)

  /** The runs are a layout of the file, and what lies outside them reads as zero. */
  predicate Sparse(source: Source) {
    && Layout(source.layout, |source.data|)
    && forall i | 0 <= i < |source.data| && !InRanges(source.layout, i) :: source.data[i] == 0
  }

  /** The rows that a reply to a query for `left` rows holds: never more than fit the answer. */
  function RowsOf(reply: Reply, left: nat): (n: nat)
    requires reply.Rows?
    ensures n <= left && n <= ANSWER_ROWS
  {
    Min(Min(reply.most, ANSWER_ROWS), left)
  }

  /** From query `n` on, with `left` rows still to come, no query fails before the list is whole, and none that leaves
      rows over is empty. */
  predicate Advances(replies: nat -> Reply, n: nat, left: nat)
    decreases left
  {
    && replies(n).Rows?
    && var rows := RowsOf(replies(n), left);
       rows == left || (rows > 0 && Advances(replies, n + 1, left - rows))
  }

  /** A query fails before the list is whole and before one that leaves rows over is empty. */
  predicate Breaks(replies: nat -> Reply, n: nat, left: nat)
    decreases left
  {
    || replies(n).Broken?
    || var rows := RowsOf(replies(n), left);
       0 < rows < left && Breaks(replies, n + 1, left - rows)
  }

  /** How many of `left` rows come before the list is whole or a query that leaves rows over is empty. */
  function Collected(replies: nat -> Reply, n: nat, left: nat): (rows: nat)
    requires !Breaks(replies, n, left)
    ensures rows <= left
    ensures rows == left <==> Advances(replies, n, left)
    decreases left
  {
    var rows := RowsOf(replies(n), left);
    if rows == 0 || rows == left then rows else rows + Collected(replies, n + 1, left - rows)
  }

  lemma {:induction false} AdvancingDoesNotBreak(replies: nat -> Reply, n: nat, left: nat)
    requires Advances(replies, n, left)
    ensures !Breaks(replies, n, left)
    decreases left
  {
    var rows := RowsOf(replies(n), left);
    if 0 < rows < left {
      AdvancingDoesNotBreak(replies, n + 1, left - rows);
    }
  }

  /** The list that the queries add up to. */
  function Listed(source: Source): Result<seq<Range>> {
    if !source.opens then Err(Generic)
    else if source.data == [] then Ok([])
    else if Breaks(source.replies, 0, |source.layout|) then Err(Generic)
    else Ok(source.layout[..Collected(source.replies, 0, |source.layout|)])
  }

  /** Whether the queries add up to one unbounded query. */
  predicate ListsAll(source: Source) {
    source.opens && (source.data == [] || Advances(source.replies, 0, |source.layout|))
  }

  /** The list is the answer to one unbounded query exactly when no query fails and none that leaves rows over is empty. */
  lemma ListedIsWhole(source: Source)
    requires Layout(source.layout, |source.data|)
    ensures Listed(source) == Ok(source.layout) <==> ListsAll(source)
  {
    if source.opens && source.data == [] {
      NoRunFitsInNothing(source.layout);
    } else if source.opens && Advances(source.replies, 0, |source.layout|) {
      AdvancingDoesNotBreak(source.replies, 0, |source.layout|);
      assert source.layout[..|source.layout|] == source.layout;
    }
  }

  // A file of one byte, whose only run is promised and never given.
  const STALLED: Source := Source([1], [Range(0, 1)], true, _ => Rows(0))

  /** An empty page ends the list early, and a copy that follows it is not the file. */
  lemma StalledListIsShort(data: Bytes)
    ensures Sparse(STALLED) && !ListsAll(STALLED) && Listed(STALLED) == Ok([])
    ensures CopyOf(data, STALLED, []) ==> data != STALLED.data
  {
    assert STALLED.layout[0] == Range(0, 1) && InRanges(STALLED.layout, 0);
    assert STALLED.layout[..0] == [];
    assert STALLED.data[0] == 1 && !InRanges([], 0);
  }

  /** FSCTL_QUERY_ALLOCATED_RANGES, the `n`-th time: the first rows of the answer, and whether there are more. */
  method QueryRanges(source: Source, offset: nat, n: nat) returns (ok: bool, rows: seq<Range>, more: bool)
    ensures ok == source.replies(n).Rows?
    ensures ok ==>
              var answer := Query(source.layout, offset);
              rows == answer[..RowsOf(source.replies(n), |answer|)] && more == (|rows| < |answer|)
  {
    var answer := Query(source.layout, offset);
    if source.replies(n).Broken? {
      return false, [], false;
    }
    rows := answer[..RowsOf(source.replies(n), |answer|)];
    return true, rows, |rows| < |answer|;
  }

  /** `found` is the list so far, and a query from `offset` answers the rest of it. */
  predicate UpTo(source: Source, found: seq<Range>, offset: nat) {
    && found <= source.layout
    && Query(source.layout, offset) == source.layout[|found|..]
  }

  /** Asking again from the end of the last row gives the runs after it. */
  lemma NextPage(source: Source, found: seq<Range>, offset: nat, rows: seq<Range>)
    requires Layout(source.layout, |source.data|) && UpTo(source, found, offset)
    requires rows <= Query(source.layout, offset)
    ensures found + rows <= source.layout
    ensures rows == Query(source.layout, offset) ==> found + rows == source.layout
    ensures rows != [] ==>
              var last := rows[|rows| - 1];
              && UpTo(source, found + rows, last.offset + last.length)
              && (last.offset + last.length >= |source.data| ==> found + rows == source.layout)
  {
    var m := |found| + |rows|;
    assert source.layout == found + source.layout[|found|..];
    assert found + rows == source.layout[..m];
    if rows != [] {
      assert rows[|rows| - 1] == source.layout[m - 1];
      QueryAfter(source.layout, m, |source.data|);
      assert m < |source.layout| ==> source.layout[m].length > 0 && End(source.layout[m]) <= |source.data|;
    }
  }

  /** One more query, seen from what the queries after it will do. */
  lemma QueryGoesOn(source: Source, found: nat, n: nat)
    requires found <= |source.layout| && source.replies(n).Rows?
    ensures var rows := RowsOf(source.replies(n), |source.layout| - found);
            && (Breaks(source.replies, n, |source.layout| - found) <==>
                0 < rows < |source.layout| - found && Breaks(source.replies, n + 1, |source.layout| - found - rows))
            && (!Breaks(source.replies, n, |source.layout| - found) ==>
                  Collected(source.replies, n, |source.layout| - found) ==
                  rows + if 0 < rows < |source.layout| - found
                         then Collected(source.replies, n + 1, |source.layout| - found - rows) else 0)
  {
  }

  lemma RestIsQueried(source: Source, found: seq<Range>, offset: nat)
    requires UpTo(source, found, offset)
    ensures |Query(source.layout, offset)| == |source.layout| - |found|
    ensures forall k | 0 <= k <= |source.layout| - |found| ::
              found + Query(source.layout, offset)[..k] == source.layout[..|found| + k]
  {
    assert source.layout == found + source.layout[|found|..];
  }

  /** Page after page, until the list is whole, or a page is empty although more is promised. */
  method QueryPages(source: Source) returns (ranges: Result<seq<Range>>)
    requires Layout(source.layout, |source.data|) && source.opens && source.data != []
    ensures ranges == Listed(source)
  {
    hide Query, Layout, Breaks, Collected, UpTo;
    var length := |source.data|;
    var found: seq<Range>, offset: nat, n: nat := [], 0, 0;
    NothingFound(source);
    ghost var all := |source.layout|;
    while offset < length
      invariant UpTo(source, found, offset) && |found| <= all && found == source.layout[..|found|]
      invariant offset >= length ==> Listed(source) == Ok(found)
      invariant Breaks(source.replies, 0, all) <==> Breaks(source.replies, n, all - |found|)
      invariant !Breaks(source.replies, 0, all) ==>
                  Collected(source.replies, 0, all) == |found| + Collected(source.replies, n, all - |found|)
      decreases all - |found|
    {
      var ok, rows, more := QueryRanges(source, offset, n);
      RestIsQueried(source, found, offset);
      if !ok {
        BrokenBreaks(source.replies, n, all - |found|);
        return Err(Generic);
      }
      QueryGoesOn(source, |found|, n);
      NextPage(source, found, offset, rows);
      found := found + rows;
      if !more {
        return Ok(found);
      }
      if rows == [] {
        return Ok(found);
      }
      n := n + 1;
      offset := rows[|rows| - 1].offset + rows[|rows| - 1].length;
    }
    return Ok(found);
  }

  lemma NothingFound(source: Source)
    requires Layout(source.layout, |source.data|)
    ensures UpTo(source, [], 0)
  {
    QueryFromTheStart(source.layout, |source.data|);
  }

  lemma BrokenBreaks(replies: nat -> Reply, n: nat, left: nat)
    requires replies(n).Broken?
    ensures Breaks(replies, n, left)
  {
  }

  lemma NoRunFitsInNothing(ranges: seq<Range>)
    ensures Layout(ranges, 0) ==> ranges == []
  {
    assert |ranges| > 0 ==> ranges[0].length == 0 || End(ranges[0]) > 0;
  }

  /** The list, asked for page by page. `ListedIsWhole` says when it is the answer to one unbounded query. */
  method AllocatedRanges(source: Source) returns (ranges: Result<seq<Range>>)
    requires Layout(source.layout, |source.data|)
    ensures ranges == Listed(source)
    ensures ranges == Ok(source.layout) <==> ListsAll(source)
  {
    ListedIsWhole(source);
    // The size is asked for first, and a file of no bytes is not asked about.
    if !source.opens {
      return Err(Generic);
    }
    if |source.data| == 0 {
      return Ok([]);
    }
    ranges := QueryPages(source);
  }

  /** The calls of a copy after the queries, one after the other: opening and creating, resizing, every read, every write
      and every report. One that falls short, reads nothing, or asks to stop does not work. */
  class Calls {
    const works: nat -> bool
    var made: nat

    constructor (works: nat -> bool)
      ensures this.works == works && made == 0
    {
      this.works, made := works, 0;
    }

    method Next() returns (ok: bool)
      modifies this`made
      ensures ok == works(old(made)) && made == old(made) + 1
    {
      ok := works(made);
      made := made + 1;
    }
  }

  ghost predicate AllWork(works: nat -> bool, from: nat, to: nat) {
    forall k | from <= k < to :: works(k)
  }

  /** One call after another, up to three. */
  lemma FirstOnesWork(works: nat -> bool, from: nat)
    ensures AllWork(works, from, from + 1) <==> works(from)
    ensures AllWork(works, from, from + 2) <==> works(from) && works(from + 1)
    ensures AllWork(works, from, from + 3) <==> works(from) && works(from + 1) && works(from + 2)
  {
    AllWorkJoins(works, from, from + 1, from + 2);
    AllWorkJoins(works, from, from + 2, from + 3);
  }

  lemma AllWorkJoins(works: nat -> bool, from: nat, middle: nat, to: nat)
    requires from <= middle <= to
    ensures AllWork(works, from, to) <==> AllWork(works, from, middle) && AllWork(works, middle, to)
  {
  }

  /** The copy, sparse and already as long as the original: `writes` lists what was stored where. */
  class Destination {
    var data: Bytes
    ghost var writes: seq<Range>

    constructor ()
      ensures data == [] && writes == []
    {
      data, writes := [], [];
    }

    /** SetEndOfFile: the length alone. New bytes read as zero and take no room. */
    method Resize(length: nat, calls: Calls) returns (ok: bool)
      requires data == []
      modifies this`data, calls`made
      ensures data == if ok then Zeros(length) else []
      ensures ok == calls.works(old(calls.made)) && calls.made == old(calls.made) + 1
    {
      ok := calls.Next();
      if ok {
        data := Zeros(length);
      }
    }

    /** WriteFile: all of `chunk` is stored at `offset`, or some prefix of it when the call does not work. */
    method Write(offset: nat, chunk: Bytes, calls: Calls) returns (ok: bool, count: nat)
      requires offset + |chunk| <= |data|
      modifies this, calls`made
      ensures ok == calls.works(old(calls.made)) && calls.made == old(calls.made) + 1
      ensures count <= |chunk| && (ok ==> count == |chunk|)
      ensures data == old(data)[..offset] + chunk[..count] + old(data)[offset + count..]
      ensures writes == old(writes) + [Range(offset, count)]
    {
      ok := calls.Next();
      var some: int := *;
      count := if !ok && 0 <= some < |chunk| then some else |chunk|;
      data := data[..offset] + chunk[..count] + data[offset + count..];
      writes := writes + [Range(offset, count)];
    }
  }

  predicate Lies(w: Range, range: Range) {
    range.offset <= w.offset && End(w) <= End(range)
  }

  function Zeros(n: nat): (z: Bytes)
    ensures |z| == n && forall k | 0 <= k < n :: z[k] == 0
  {
    seq(n, _ => 0)
  }

  /** From `low` up to `high` the bytes are the original's; the others are as before. */
  predicate Copied(before: Bytes, after: Bytes, original: Bytes, low: nat, high: nat) {
    && |before| == |after| == |original| && low <= high <= |original|
    && forall i | 0 <= i < |after| :: after[i] == if low <= i < high then original[i] else before[i]
  }

  // ---- The copy -----------------------------------------------------------------------------

  const COPY_CHUNK_BYTES: nat := 1024 * 1024

  /** The calls a progress callback has had: the bytes copied so far, and the total. */
  class Progress {
    var reports: seq<(nat, nat)>

    constructor ()
      ensures reports == []
    {
      reports := [];
    }

    /** The callback may ask the copy to stop. */
    method Report(copied: nat, total: nat, calls: Calls) returns (goOn: bool)
      modifies this, calls`made
      ensures reports == old(reports) + [(copied, total)]
      ensures goOn == calls.works(old(calls.made)) && calls.made == old(calls.made) + 1
    {
      reports := reports + [(copied, total)];
      goOn := calls.Next();
    }
  }

  /** Every report is larger than the one before, and within the total. */
  predicate Climbing(reports: seq<(nat, nat)>, total: nat) {
    && (forall j, k | 0 <= j < k < |reports| :: reports[j].0 < reports[k].0)
    && (forall k | 0 <= k < |reports| :: 0 < reports[k].0 && reports[k].1 == total)
  }

  class CopyJob {
    const source: Source
    const destination: Destination
    const buffer: array<Byte>
    const total: nat
    const progress: Progress
    const calls: Calls
    var copied: nat

    constructor (source: Source, destination: Destination, buffer: array<Byte>, total: nat, progress: Progress, calls: Calls)
      ensures this.source == source && this.destination == destination && this.buffer == buffer
      ensures this.total == total && this.progress == progress && this.calls == calls && copied == 0
    {
      this.source, this.destination, this.buffer := source, destination, buffer;
      this.total, this.progress, this.calls := total, progress, calls;
      copied := 0;
    }

    ghost predicate Ready()
      reads this, destination, buffer, progress
    {
      && buffer.Length > 0
      && |destination.data| == |source.data|
      && Climbing(progress.reports, total)
      && copied == if progress.reports == [] then 0 else progress.reports[|progress.reports| - 1].0
    }

    /** ReadFile into the buffer: no more than was asked for, perhaps less. */
    method Read(offset: nat, chunk: nat) returns (ok: bool, read: nat)
      requires 0 < chunk <= buffer.Length && offset + chunk <= |source.data|
      modifies buffer, calls`made
      ensures ok == calls.works(old(calls.made)) && calls.made == old(calls.made) + 1
      ensures ok ==> read <= chunk && buffer[..read] == source.data[offset..offset + read] && read > 0
    {
      ok := calls.Next();
      var some: int := *;
      read := if !ok then 0 else if 0 < some <= chunk then some else chunk;
      for i := 0 to read
        invariant buffer[..i] == source.data[offset..offset + i] && calls.made == old(calls.made) + 1
      {
        buffer[i] := source.data[offset + i];
      }
    }

    /** One chunk: read, write what was read, report. On success the copy has reached `offset + count`. */
    method CopyChunk(offset: nat, chunk: nat) returns (status: Status, count: nat)
      requires Ready() && 0 < chunk <= buffer.Length && offset + chunk <= |source.data|
      modifies this, destination, buffer, progress, calls
      ensures Ready() && count <= chunk
      ensures calls.made > old(calls.made)
      ensures status.Done? <==> AllWork(calls.works, old(calls.made), calls.made)
      ensures Copied(old(destination.data), destination.data, source.data, offset, offset + count)
      ensures forall w | w in destination.writes ::
                w in old(destination.writes) || (offset <= w.offset && End(w) <= offset + chunk)
      ensures status.Done? ==> count > 0 && copied == old(copied) + count
    {
      hide AllWork;
      FirstOnesWork(calls.works, calls.made);
      var ok, read := Read(offset, chunk);
      if !ok {
        return Failed(Generic), 0;
      }
      ok, count := destination.Write(offset, buffer[..read], calls);
      assert source.data[offset..offset + read][..count] == source.data[offset..offset + count];
      if !ok {
        return Failed(Generic), count;
      }
      copied := copied + read;
      var goOn := progress.Report(copied, total, calls);
      status := if goOn then Done else Failed(Partial);
    }

    /** Copies one run, a chunk at a time. However it ends, the bytes of the run up to some point are the original's
        and no other byte has changed. */
    method CopyRange(range: Range) returns (status: Status, ghost reached: nat)
      requires Ready() && End(range) <= |source.data|
      modifies this, destination, buffer, progress, calls
      ensures Ready()
      ensures calls.made >= old(calls.made)
      ensures status.Done? <==> AllWork(calls.works, old(calls.made), calls.made)
      ensures range.offset <= reached <= End(range)
      ensures Copied(old(destination.data), destination.data, source.data, range.offset, reached)
      ensures forall w | w in destination.writes :: w in old(destination.writes) || Lies(w, range)
      ensures status.Done? ==> reached == End(range) && copied == old(copied) + range.length
    {
      var offset := range.offset;
      var end := range.offset + range.length;
      reached := offset;
      while offset < end
        invariant Ready() && range.offset <= offset == reached <= end
        invariant calls.made >= old(calls.made) && AllWork(calls.works, old(calls.made), calls.made)
        invariant copied == old(copied) + (offset - range.offset)
        invariant Copied(old(destination.data), destination.data, source.data, range.offset, offset)
        invariant forall w | w in destination.writes :: w in old(destination.writes) || Lies(w, range)
        decreases end - offset
      {
        var count;
        ghost var before := calls.made;
        status, count := CopyChunk(offset, Min(end - offset, buffer.Length));
        reached := offset + count;
        AllWorkJoins(calls.works, old(calls.made), before, calls.made);
        if status.Failed? {
          return;
        }
        offset := offset + count;
      }
      status := Done;
    }
  }

  function TotalLength(ranges: seq<Range>): nat {
    if ranges == [] then 0 else TotalLength(ranges[..|ranges| - 1]) + ranges[|ranges| - 1].length
  }

  /** What the destination holds once the runs are copied: the original inside them, zero outside. */
  predicate CopyOf(data: Bytes, source: Source, ranges: seq<Range>) {
    && |data| == |source.data|
    && forall i | 0 <= i < |data| :: data[i] == if InRanges(ranges, i) then source.data[i] else 0
  }

  /** Copies a file, keeping its holes. On success the copy is the original in the runs that were listed and zero outside
      them, so it is the original, byte for byte, if they were all listed. Every write, whatever the outcome, lies in a run
      of the original; and the progress climbs from nothing to the length of all the listed runs. */
  method CopyFileSparse(source: Source, progress: Progress, calls: Calls) returns (status: Status, destination: Destination)
    requires Sparse(source) && progress.reports == []
    modifies progress, calls
    ensures calls.made >= old(calls.made)
    ensures status.Done? <==> Listed(source).Ok? && AllWork(calls.works, old(calls.made), calls.made)
    ensures fresh(destination)
    ensures forall w | w in destination.writes :: LiesInOne(w, source.layout)
    ensures Listed(source).Err? ==> status.Failed? && destination.data == [] && progress.reports == []
    ensures Listed(source).Ok? ==> Climbing(progress.reports, TotalLength(Listed(source).value))
    ensures status.Done? ==>
              var ranges := Listed(source).value;
              && CopyOf(destination.data, source, ranges)
              && (ranges != [] ==>
                    && progress.reports != []
                    && progress.reports[|progress.reports| - 1].0 == TotalLength(ranges))
    ensures status.Done? && ListsAll(source) ==> destination.data == source.data && Listed(source) == Ok(source.layout)
  {
    hide Listed, ListsAll, LiesInOne, TotalLength, Breaks, Collected, CopyOf, Climbing, AllWork;
    NothingReported(source, calls.works, calls.made);
    FirstOnesWork(calls.works, calls.made);
    destination := new Destination();
    var ranges := AllocatedRanges(source);
    if ranges.Err? {
      return Failed(ranges.error), destination;
    }
    ListedRunsAreRuns(source);
    var total := Accumulate(ranges.value);
    // Opening the source, creating the destination, and making it sparse before anything is written.
    var ready := calls.Next();
    if !ready {
      return Failed(Generic), destination;
    }
    var sized := destination.Resize(|source.data|, calls);
    if !sized {
      return Failed(Generic), destination;
    }
    var buffer := new Byte[COPY_CHUNK_BYTES];
    var job := new CopyJob(source, destination, buffer, total, progress, calls);
    ghost var before := calls.made;
    status := CopyRanges(job, ranges.value);
    AllWorkJoins(calls.works, old(calls.made), before, calls.made);
    SomethingIsReported(ranges.value);
    if status.Done? && ListsAll(source) {
      ListedIsWhole(source);
      WholeCopyIsTheFile(destination.data, source);
    }
    forall w | w in destination.writes
      ensures LiesInOne(w, source.layout)
    {
      LiesInLayout(source, ranges.value, w);
    }
  }

  lemma ListedRunsAreRuns(source: Source)
    requires Layout(source.layout, |source.data|) && Listed(source).Ok?
    ensures Listed(source).value <= source.layout
    ensures forall k | 0 <= k < |Listed(source).value| ::
              Listed(source).value[k].length > 0 && End(Listed(source).value[k]) <= |source.data|
  {
  }

  lemma NothingReported(source: Source, works: nat -> bool, made: nat)
    ensures AllWork(works, made, made)
    ensures Listed(source).Ok? ==> Climbing([], TotalLength(Listed(source).value))
  {
  }

  lemma WholeCopyIsTheFile(data: Bytes, source: Source)
    requires Sparse(source) && CopyOf(data, source, source.layout)
    ensures data == source.data
  {
  }

  lemma LiesInLayout(source: Source, ranges: seq<Range>, w: Range)
    requires ranges <= source.layout && LiesInOne(w, ranges)
    ensures LiesInOne(w, source.layout)
  {
    var k :| 0 <= k < |ranges| && Lies(w, ranges[k]);
    assert source.layout[k] == ranges[k];
  }

  lemma SomethingIsReported(ranges: seq<Range>)
    requires forall k | 0 <= k < |ranges| :: ranges[k].length > 0
    ensures ranges != [] ==> TotalLength(ranges) > 0
  {
  }

  /** Copies run after run, until one fails. */
  method CopyRanges(job: CopyJob, ranges: seq<Range>) returns (status: Status)
    requires job.Ready() && job.copied == 0 && job.destination.data == Zeros(|job.source.data|)
    requires forall k | 0 <= k < |ranges| :: End(ranges[k]) <= |job.source.data|
    modifies job, job.destination, job.buffer, job.progress, job.calls
    ensures job.Ready()
    ensures job.calls.made >= old(job.calls.made)
    ensures status.Done? <==> AllWork(job.calls.works, old(job.calls.made), job.calls.made)
    ensures forall w | w in job.destination.writes :: w in old(job.destination.writes) || LiesInOne(w, ranges)
    ensures status.Done? ==> CopyOf(job.destination.data, job.source, ranges) && job.copied == TotalLength(ranges)
  {
    for i := 0 to |ranges|
      invariant job.calls.made >= old(job.calls.made)
      invariant AllWork(job.calls.works, old(job.calls.made), job.calls.made)
      invariant job.Ready() && job.copied == TotalLength(ranges[..i])
      invariant CopyOf(job.destination.data, job.source, ranges[..i])
      invariant forall w | w in job.destination.writes :: w in old(job.destination.writes) || LiesInOne(w, ranges)
    {
      assert ranges[..i + 1][..i] == ranges[..i];
      ghost var before := job.destination.data;
      ghost var reached;
      ghost var made := job.calls.made;
      status, reached := job.CopyRange(ranges[i]);
      AllWorkJoins(job.calls.works, old(job.calls.made), made, job.calls.made);
      if status.Failed? {
        return;
      }
      CopyOfOneMore(before, job.destination.data, job.source, ranges, i);
    }
    assert ranges[..|ranges|] == ranges;
    status := Done;
  }

  method Accumulate(ranges: seq<Range>) returns (total: nat)
    ensures total == TotalLength(ranges)
  {
    total := 0;
    for i := 0 to |ranges|
      invariant total == TotalLength(ranges[..i])
    {
      assert ranges[..i + 1][..i] == ranges[..i];
      total := total + ranges[i].length;
    }
    assert ranges[..|ranges|] == ranges;
  }

  predicate LiesInOne(w: Range, ranges: seq<Range>) {
    exists k | 0 <= k < |ranges| :: Lies(w, ranges[k])
  }

  lemma CopyOfOneMore(before: Bytes, after: Bytes, source: Source, ranges: seq<Range>, n: nat)
    requires n < |ranges| && CopyOf(before, source, ranges[..n])
    requires Copied(before, after, source.data, ranges[n].offset, End(ranges[n]))
    ensures CopyOf(after, source, ranges[..n + 1])
  {
    InRangesOfOneMore(ranges, n);
  }

  lemma InRangesOfOneMore(ranges: seq<Range>, n: nat)
    requires n < |ranges|
    ensures forall i :: InRanges(ranges[..n + 1], i) <==>
                        InRanges(ranges[..n], i) || ranges[n].offset <= i < End(ranges[n])
  {
    forall i
      ensures InRanges(ranges[..n + 1], i) <==> InRanges(ranges[..n], i) || ranges[n].offset <= i < End(ranges[n])
    {
      if ranges[n].offset <= i < End(ranges[n]) {
        assert ranges[..n + 1][n] == ranges[n];
      }
      if k :| 0 <= k < n && ranges[..n][k].offset <= i < End(ranges[..n][k]) {
        assert ranges[..n + 1][k] == ranges[..n][k];
      }
    }
  }
}

/** Ingestion of comma-separated files (from_csv.go): rows go to the columns of their partition, and the pending columns
    are turned into blocks whenever they have grown past a limit. */
module Chunking {
  import opened ByteStrings
  import opened Orders
  import opened ColumnData
  import opened ColumnSets

  const MAX_CHUNK := 10_000_000

  /** The content of a block: its partition and its columns. */
  datatype Chunk = Chunk(key: Bytes, cols: Cols)

  /** A row, its partition, and the order in which the row's values were visited. */
  type Arrival = (Bytes, Pass)

  // ---- what is pending ----

  function KeysIn(seen: seq<Arrival>): set<Bytes> { set i | 0 <= i < |seen| :: seen[i].0 }

  /** The rows of one partition, in order. */
  function PassesOf(seen: seq<Arrival>, p: Bytes): seq<Pass> {
    if seen == [] then []
    else
      var k := |seen| - 1;
      PassesOf(seen[..k], p) + (if seen[k].0 == p then [seen[k].1] else [])
  }

  /** The column sets after these rows: per partition, its rows added to the columns it starts with. */
  ghost function PendingOf(base: Cols, seen: seq<Arrival>): map<Bytes, Cols> {
    map p | p in KeysIn(seen) :: Added(base, PassesOf(seen, p))
  }

  /** The columns a row of partition `p` goes to. */
  function Current(base: Cols, pending: map<Bytes, Cols>, p: Bytes): Cols {
    if p in pending then pending[p] else base
  }

  lemma PassesSnoc(seen: seq<Arrival>, p: Bytes, pass: Pass, q: Bytes)
    ensures PassesOf(seen + [(p, pass)], q) == PassesOf(seen, q) + (if p == q then [pass] else [])
    ensures q in KeysIn(seen + [(p, pass)]) <==> p == q || q in KeysIn(seen)
  {
    var all := seen + [(p, pass)];
    assert all[..|seen|] == seen;
    if i :| 0 <= i < |seen| && seen[i].0 == q { assert all[i].0 == q; }
    if p == q { assert all[|seen|].0 == q; }
  }

  lemma {:induction false} NoPasses(seen: seq<Arrival>, p: Bytes)
    requires p !in KeysIn(seen)
    ensures PassesOf(seen, p) == []
  {
    if seen != [] {
      var k := |seen| - 1;
      assert seen == seen[..k] + [(seen[k].0, seen[k].1)];
      PassesSnoc(seen[..k], seen[k].0, seen[k].1, p);
      NoPasses(seen[..k], p);
    }
  }

  lemma AddedSnoc(base: Cols, ps: seq<Pass>, p: Pass)
    ensures Added(base, ps + [p]) == FillNulls(AppendIn(Added(base, ps), p.row, p.order))
    ensures Added(base, []) == base
  {
    hide FillNulls, AppendIn;
    assert (ps + [p])[..|ps|] == ps;
  }

  /** One more row changes only its own partition. */
  lemma PendingNext(base: Cols, seen: seq<Arrival>, p: Bytes, pass: Pass)
    ensures var pending := PendingOf(base, seen);
      PendingOf(base, seen + [(p, pass)])
      == pending[p := FillNulls(AppendIn(Current(base, pending, p), pass.row, pass.order))]
  {
    hide FillNulls, AppendIn, Added, PassesOf, KeysIn;
    var pending, after := PendingOf(base, seen), PendingOf(base, seen + [(p, pass)]);
    forall q ensures q in after <==> p == q || q in pending { PassesSnoc(seen, p, pass, q); }
    forall q | q in pending && q != p ensures after[q] == pending[q] {
      PassesSnoc(seen, p, pass, q);
      assert PassesOf(seen, q) + [] == PassesOf(seen, q);
    }
    PassesSnoc(seen, p, pass, p);
    AddedSnoc(base, PassesOf(seen, p), pass);
    if p !in pending { NoPasses(seen, p); }
  }

  ghost function PendingSizes(pending: map<Bytes, Cols>): Bytes -> nat {
    p => if p in pending then SetSize(pending[p]) else 0
  }

  /** The summed Size() of all pending column sets. */
  ghost function TotalSize(pending: map<Bytes, Cols>): nat { SetSum(pending.Keys, PendingSizes(pending)) }

  lemma TotalUpdate(pending: map<Bytes, Cols>, p: Bytes, cols: Cols)
    ensures TotalSize(pending[p := cols]) == TotalSize(pending) - PendingSizes(pending)(p) + SetSize(cols)
  {
    hide SetSize, SetSum;
    var after := pending[p := cols];
    SetSumRemove(after.Keys, p, PendingSizes(after));
    var rest := pending.Keys - {p};
    assert after.Keys - {p} == rest;
    SetSumCongruent(rest, PendingSizes(after), PendingSizes(pending));
    if p in pending {
      SetSumRemove(pending.Keys, p, PendingSizes(pending));
    } else {
      assert rest == pending.Keys;
    }
  }

  lemma TotalRemove(pending: map<Bytes, Cols>, p: Bytes)
    requires p in pending
    ensures TotalSize(pending - {p}) + SetSize(pending[p]) == TotalSize(pending)
  {
    hide SetSize, SetSum;
    var rest := pending - {p};
    SetSumRemove(pending.Keys, p, PendingSizes(pending));
    assert rest.Keys == pending.Keys - {p};
    SetSumCongruent(rest.Keys, PendingSizes(rest), PendingSizes(pending));
  }

  lemma NothingPending() ensures TotalSize(map[]) == 0 { }

  lemma {:induction false} SetSumZero(s: set<Name>, f: Name -> nat)
    requires forall x :: x in s ==> f(x) == 0
    ensures SetSum(s, f) == 0
    decreases |s|
  {
    if s != {} {
      var x :| x in s;
      SetSumRemove(s, x, f);
      SetSumZero(s - {x}, f);
    }
  }

  lemma MadeIsEmpty(filter: Option<map<Name, Type>>)
    ensures SetSize(Made(filter)) == 0 && Even(Made(filter), 0) && Max(Made(filter)) == 0
    ensures filter.None? ==> Made(filter) == map[]
    ensures filter.Some? ==> forall c :: c in Made(filter) <==> c in filter.value
    ensures filter.Some? ==> forall c :: c in filter.value ==> Made(filter)[c] == Column(filter.value[c], [])
  {
    hide SetSum, Max;
    var base := Made(filter);
    SetSumZero(base.Keys, SizeIn(base));
    MaxUnique(base, 0);
  }

  // ---- flushes ----

  /** What happened between two flushes: the rows that arrived, and the blocks they were turned into. */
  datatype Cut = Cut(seen: seq<Arrival>, chunks: seq<Chunk>)

  ghost function ChunksSize(chunks: seq<Chunk>): nat {
    if chunks == [] then 0 else ChunksSize(chunks[..|chunks| - 1]) + SetSize(chunks[|chunks| - 1].cols)
  }

  ghost predicate OneChunkEach(chunks: seq<Chunk>) {
    forall i, j :: 0 <= i < j < |chunks| ==> chunks[i].key != chunks[j].key
  }

  ghost predicate HasChunk(chunks: seq<Chunk>, p: Bytes) { exists i :: 0 <= i < |chunks| && chunks[i].key == p }

  /** One chunk per column set, and nothing else. */
  ghost predicate Emits(chunks: seq<Chunk>, pending: map<Bytes, Cols>) {
    && OneChunkEach(chunks)
    && (forall i :: 0 <= i < |chunks| ==> chunks[i].key in pending && pending[chunks[i].key] == chunks[i].cols)
    && (forall p :: p in pending ==> HasChunk(chunks, p))
  }

  /** Without the latest row, what is pending is below the limit. */
  ghost predicate BelowBeforeLast(base: Cols, seen: seq<Arrival>) {
    seen != [] ==> TotalSize(PendingOf(base, seen[..|seen| - 1])) < 10_000_000
  }

  /** The chunks of a flush are, partition by partition, its rows added to fresh columns; their summed size is below the
      limit but for the growth by the last row. */
  ghost predicate GoodCut(base: Cols, f: Cut) {
    && Emits(f.chunks, PendingOf(base, f.seen))
    && ChunksSize(f.chunks) == TotalSize(PendingOf(base, f.seen))
    && BelowBeforeLast(base, f.seen)
  }

  ghost predicate WellCut(base: Cols, flushes: seq<Cut>) {
    forall i :: 0 <= i < |flushes| ==> GoodCut(base, flushes[i])
  }

  /** No flush comes before the limit is reached. */
  ghost predicate AllFull(flushes: seq<Cut>) {
    forall i :: 0 <= i < |flushes| ==> ChunksSize(flushes[i].chunks) >= 10_000_000
  }

  function ChunksIn(flushes: seq<Cut>): seq<Chunk> {
    if flushes == [] then [] else ChunksIn(flushes[..|flushes| - 1]) + flushes[|flushes| - 1].chunks
  }

  function SeenIn(flushes: seq<Cut>): seq<Arrival> {
    if flushes == [] then [] else SeenIn(flushes[..|flushes| - 1]) + flushes[|flushes| - 1].seen
  }

  lemma CutsSnoc(flushes: seq<Cut>, f: Cut)
    ensures ChunksIn(flushes + [f]) == ChunksIn(flushes) + f.chunks
    ensures SeenIn(flushes + [f]) == SeenIn(flushes) + f.seen
  {
    assert (flushes + [f])[..|flushes|] == flushes;
  }

  /** The chunks emitted so far in a flush, and the column sets still to come. */
  ghost predicate Emitting(chunks: seq<Chunk>, rest: map<Bytes, Cols>, all: map<Bytes, Cols>) {
    && OneChunkEach(chunks)
    && (forall i :: 0 <= i < |chunks| ==>
         chunks[i].key in all && all[chunks[i].key] == chunks[i].cols && chunks[i].key !in rest)
    && (forall p :: p in rest ==> p in all && rest[p] == all[p])
    && (forall p :: p in all ==> p in rest || HasChunk(chunks, p))
    && ChunksSize(chunks) + TotalSize(rest) == TotalSize(all)
  }

  lemma EmitNext(chunks: seq<Chunk>, rest: map<Bytes, Cols>, all: map<Bytes, Cols>, p: Bytes)
    requires Emitting(chunks, rest, all) && p in rest
    ensures Emitting(chunks + [Chunk(p, rest[p])], rest - {p}, all)
  {
    hide TotalSize, SetSize;
    TotalRemove(rest, p);
    var chunks' := chunks + [Chunk(p, rest[p])];
    assert chunks'[..|chunks|] == chunks;
    forall q | q in all ensures q in rest - {p} || HasChunk(chunks', q) {
      if HasChunk(chunks, q) {
        var i :| 0 <= i < |chunks| && chunks[i].key == q;
        assert chunks'[i].key == q;
      } else if q == p {
        assert chunks'[|chunks|].key == q;
      }
    }
  }

  lemma EmitEnd(chunks: seq<Chunk>, all: map<Bytes, Cols>)
    requires Emitting(chunks, map[], all)
    ensures Emits(chunks, all) && ChunksSize(chunks) == TotalSize(all)
  {
    hide TotalSize, ChunksSize, HasChunk;
    NothingPending();
  }

  class Chunker {
    const filter: Option<map<Name, Type>>
    var pending: map<Bytes, Cols>
    var size: nat
    var blocks: seq<Chunk>
    ghost var seen: seq<Arrival>      // since the last flush
    ghost var flushes: seq<Cut>

    ghost predicate Valid()
      reads this
    {
      && pending == PendingOf(Made(filter), seen) && size == TotalSize(pending)
      && BelowBeforeLast(Made(filter), seen)
      && blocks == ChunksIn(flushes) && WellCut(Made(filter), flushes)
    }

    constructor (filter: Option<map<Name, Type>>)
      ensures Valid() && this.filter == filter && pending == map[] && blocks == [] && seen == [] && size == 0
      ensures flushes == []
    {
      this.filter, pending, size, blocks, seen, flushes := filter, map[], 0, [], [], [];
    }

    /** makeBlocks and the reset: one block per pending partition, in any order. */
    method Flush() returns (ghost f: Cut)
      requires Valid()
      modifies this
      ensures Valid() && pending == map[] && size == 0 && seen == []
      ensures flushes == old(flushes) + [f] && f.seen == old(seen) && ChunksSize(f.chunks) == old(size)
    {
      hide PendingOf, TotalSize, Emitting, ChunksSize, Emits, BelowBeforeLast, ChunksIn, WellCut, Made;
      var out: seq<Chunk> := [];
      ghost var all, before, had := pending, flushes, blocks;
      assert Emitting(out, pending, all) by { StartEmitting(all); }
      while pending != map[]
        invariant Emitting(out, pending, all) && blocks == had && flushes == before && seen == old(seen)
        decreases |pending|
      {
        var p :| p in pending;
        EmitNext(out, pending, all, p);
        out := out + [Chunk(p, pending[p])];
        pending := pending - {p};
      }
      EmitEnd(out, all);
      f := Cut(seen, out);
      CutsSnoc(flushes, f);
      WellCutSnoc(Made(filter), flushes, f);
      NoneSeen(Made(filter));
      blocks := blocks + out;
      flushes := flushes + [f];
      size, seen := 0, [];
    }

    /** One record: its row goes to the columns of its partition. The running size stays the summed size of the pending
        columns, whatever the filter and the row. */
    method Add(p: Bytes, row: Row)
      requires Valid() && size < MAX_CHUNK
      modifies this
      ensures Valid() && blocks == old(blocks) && flushes == old(flushes)
      ensures exists order :: Visits(order, row) && seen == old(seen) + [(p, RowOrder(row, order))]
    {
      hide PendingOf, TotalSize, SetSize, Max, Made, FillNulls, AppendIn, Aligned, WithRow, ChunksIn, WellCut, Current,
        Even, Enumerates, BelowBeforeLast;
      var set1 := new ColumnSet.Of(Current(Made(filter), pending, p));
      ghost var order;
      var n;
      n, order := set1.AddRow(row);
      ghost var pass: Pass := RowOrder(row, order);
      ArrivalCounted(filter, seen, p, pass);
      pending := pending[p := set1.cols];
      size := size + n;
      seen := seen + [(p, pass)];
    }

    /** One turn of the reading loop: flush once the limit is reached, then add the row unless its partition is empty */
    method Record(r: seq<Bytes>, column: nat, transform: seq<Bytes> -> Row) returns (ghost more: seq<Arrival>)
      requires Valid() && AllFull(flushes) && column < |r|
      modifies this
      ensures Valid() && AllFull(flushes)
      ensures SeenIn(flushes) + seen == old(SeenIn(flushes) + seen) + more
      ensures if r[column] == [] then more == []
        else |more| == 1 && more[0].0 == r[column] && more[0].1.row == transform(r)
    {
      hide PendingOf, TotalSize, BelowBeforeLast, ChunksIn, SeenIn, WellCut, ChunksSize, Made;
      ghost var had, history := flushes, SeenIn(flushes) + seen;
      if size >= MAX_CHUNK {
        ghost var f := Flush();
        CutsSnoc(had, f);
      }
      assert SeenIn(flushes) + seen == history;
      more := [];
      var partition := r[column];
      if partition != [] {
        Add(partition, transform(r));
        more := [seen[|seen| - 1]];
      }
      assert SeenIn(flushes) + seen == history + more;
    }
  }

  /** What one more row does to the pending columns and to their size. */
  lemma ArrivalCounted(filter: Option<map<Name, Type>>, seen: seq<Arrival>, p: Bytes, pass: Pass)
    ensures var base := Made(filter);
      var pending := PendingOf(base, seen);
      var before := Current(base, pending, p);
      var after := FillNulls(AppendIn(before, pass.row, pass.order));
      && PendingOf(base, seen + [(p, pass)]) == pending[p := after]
      && TotalSize(pending[p := after]) == TotalSize(pending) - SetSize(before) + SetSize(after)
      && (TotalSize(pending) < MAX_CHUNK ==> BelowBeforeLast(base, seen + [(p, pass)]))
  {
    hide PendingOf, TotalSize, SetSize, Max, Made, FillNulls, AppendIn, Enumerates;
    var base := Made(filter);
    var pending := PendingOf(base, seen);
    PendingNext(base, seen, p, pass);
    TotalUpdate(pending, p, FillNulls(AppendIn(Current(base, pending, p), pass.row, pass.order)));
    MadeIsEmpty(filter);
    assert (seen + [(p, pass)])[..|seen|] == seen;
  }

  lemma WellCutSnoc(base: Cols, flushes: seq<Cut>, f: Cut)
    requires WellCut(base, flushes) && GoodCut(base, f)
    ensures WellCut(base, flushes + [f])
  {
    hide GoodCut;
  }

  lemma StartEmitting(all: map<Bytes, Cols>) ensures Emitting([], all, all) { }

  lemma NoneSeen(base: Cols)
    ensures PendingOf(base, []) == map[] && TotalSize(map[]) == 0 && BelowBeforeLast(base, [])
  {
  }

  // ---- the whole file ----

  datatype CsvResult = NoPartition | Failed | Blocks(chunks: seq<Chunk>)

  /** findString: the first name that matches. */
  method FindString(header: seq<Name>, matches: Name -> bool) returns (r: Option<nat>)
    ensures r.None? <==> forall c :: c in header ==> !matches(c)
    ensures r.Some? ==>
      r.value < |header| && matches(header[r.value]) && forall i :: 0 <= i < r.value ==> !matches(header[i])
  {
    for i := 0 to |header|
      invariant forall k :: 0 <= k < i ==> !matches(header[k])
    {
      if matches(header[i]) { return Some(i); }
    }
    return None;
  }

  function Plain(seen: seq<Arrival>): (rows: seq<(Bytes, Row)>)
    ensures |rows| == |seen|
  {
    seq(|seen|, i requires 0 <= i < |seen| => (seen[i].0, seen[i].1.row))
  }

  predicate Increasing(picks: seq<nat>) { forall x, y :: 0 <= x < y < |picks| ==> picks[x] < picks[y] }

  /** `picks` are those of the first `n` records whose field `at` is not empty, in order; the rows are theirs, each
      under that field. */
  ghost predicate Picked(input: seq<Option<seq<Bytes>>>, n: nat, at: nat, transform: seq<Bytes> -> Row, picks: seq<nat>,
      seen: seq<Arrival>)
    requires n <= |input|
  {
    && Increasing(picks) && |seen| == |picks|
    && (forall i :: i in picks <==> 0 <= i < n && HasField(input[i], at))
    && (forall x :: 0 <= x < |seen| ==> PickedRow(input, at, transform, picks[x], seen[x]))
  }

  ghost predicate PickedRow(input: seq<Option<seq<Bytes>>>, at: nat, transform: seq<Bytes> -> Row, i: nat, a: Arrival) {
    && i < |input| && HasField(input[i], at)
    && a.0 == input[i].value[at] && a.1.row == transform(input[i].value)
  }

  predicate HasField(record: Option<seq<Bytes>>, at: nat) {
    record.Some? && at < |record.value| && record.value[at] != []
  }

  lemma PickNext(input: seq<Option<seq<Bytes>>>, i: nat, at: nat, transform: seq<Bytes> -> Row, picks: seq<nat>,
      seen: seq<Arrival>, more: seq<Arrival>)
    requires i < |input| && Picked(input, i, at, transform, picks, seen)
    requires if HasField(input[i], at) then |more| == 1 && PickedRow(input, at, transform, i, more[0]) else more == []
    ensures Picked(input, i + 1, at, transform, if HasField(input[i], at) then picks + [i] else picks, seen + more)
  {
    hide HasField, PickedRow;
    forall x | 0 <= x < |picks| ensures picks[x] < i { assert picks[x] in picks; }
  }

  /** FromCSVBy, for every filter and every row. `input` is what the CSV reader yields after the header; `matches` is
      the case-insensitive comparison with the partition name; `transform` makes the row and applies the computed
      columns. The file is partitioned by the first column that matches; a record that cannot be parsed, or has another
      number of fields than the header, fails it; and the flushes account for its rows and blocks, in order. */
  method FromCsvBy(header: seq<Name>, input: seq<Option<seq<Bytes>>>, matches: Name -> bool,
      filter: Option<map<Name, Type>>, transform: seq<Bytes> -> Row)
    returns (result: CsvResult, ghost at: nat, ghost picks: seq<nat>, ghost flushes: seq<Cut>)
    ensures result.NoPartition? <==> forall c :: c in header ==> !matches(c)
    ensures !result.NoPartition? ==>
      at < |header| && matches(header[at]) && forall i :: 0 <= i < at ==> !matches(header[i])
    ensures !result.NoPartition? ==>
      (result.Failed? <==> exists i :: 0 <= i < |input| && (input[i].None? || |input[i].value| != |header|))
    ensures result.Blocks? ==>
      && Increasing(picks)
      && (forall i :: i in picks ==> 0 <= i < |input| && input[i].Some? && at < |input[i].value|)
      && (forall i :: 0 <= i < |input| && input[i].Some? && at < |input[i].value| ==>
           (i in picks <==> input[i].value[at] != []))
    ensures result.Blocks? ==>
      && |SeenIn(flushes)| == |picks|
      && forall x :: 0 <= x < |picks| ==>
           && picks[x] < |input| && input[picks[x]].Some? && at < |input[picks[x]].value|
           && SeenIn(flushes)[x].0 == input[picks[x]].value[at]
           && SeenIn(flushes)[x].1.row == transform(input[picks[x]].value)
    ensures result.Blocks? ==>
      && result.chunks == ChunksIn(flushes)
      && WellCut(Made(filter), flushes) && flushes != [] && AllFull(flushes[..|flushes| - 1])
      && Faithful(result.chunks, filter, Plain(SeenIn(flushes)))
  {
    hide PendingOf, TotalSize, BelowBeforeLast, ChunksIn, SeenIn, WellCut, ChunksSize, Made, Faithful, Picked, HasField;
    at, picks, flushes := 0, [], [];
    var found := FindString(header, matches);
    if found.None? { return NoPartition, at, picks, flushes; }
    at := found.value;
    var column := found.value;
    var ch := new Chunker(filter);
    NothingPicked(input, at, transform);
    for i := 0 to |input|
      invariant ch.Valid() && ch.filter == filter && fresh(ch) && AllFull(ch.flushes)
      invariant forall j :: 0 <= j < i ==> input[j].Some? && |input[j].value| == |header|
      invariant Picked(input, i, at, transform, picks, SeenIn(ch.flushes) + ch.seen)
    {
      if input[i].None? || |input[i].value| != |header| { return Failed, at, picks, flushes; }
      ghost var before := SeenIn(ch.flushes) + ch.seen;
      ghost var more := ch.Record(input[i].value, column, transform);
      FieldIs(input[i], at);
      PickNext(input, i, at, transform, picks, before, more);
      picks := if HasField(input[i], at) then picks + [i] else picks;
    }
    ghost var had := ch.flushes;
    ghost var f := ch.Flush();
    CutsSnoc(had, f);
    flushes := ch.flushes;
    assert flushes[..|had|] == had;
    PickedIs(input, at, transform, picks, SeenIn(flushes));
    FileFaithful(filter, flushes);
    return Blocks(ch.blocks), at, picks, flushes;
  }

  lemma NothingPicked(input: seq<Option<seq<Bytes>>>, at: nat, transform: seq<Bytes> -> Row)
    ensures Picked(input, 0, at, transform, [], SeenIn([]) + [])
  {
  }

  lemma FieldIs(record: Option<seq<Bytes>>, at: nat)
    requires record.Some? && at < |record.value|
    ensures HasField(record, at) <==> record.value[at] != []
  {
  }

  lemma PickedIs(input: seq<Option<seq<Bytes>>>, at: nat, transform: seq<Bytes> -> Row, picks: seq<nat>,
      seen: seq<Arrival>)
    requires Picked(input, |input|, at, transform, picks, seen)
    ensures Increasing(picks) && |seen| == |picks|
    ensures forall i :: i in picks ==> 0 <= i < |input| && input[i].Some? && at < |input[i].value|
    ensures forall i :: 0 <= i < |input| && input[i].Some? && at < |input[i].value| ==>
      (i in picks <==> input[i].value[at] != [])
    ensures forall x :: 0 <= x < |picks| ==>
      && picks[x] < |input| && input[picks[x]].Some? && at < |input[picks[x]].value|
      && seen[x].0 == input[picks[x]].value[at] && seen[x].1.row == transform(input[picks[x]].value)
  {
    forall x | 0 <= x < |picks|
      ensures picks[x] < |input| && input[picks[x]].Some? && at < |input[picks[x]].value|
    {
      assert picks[x] in picks;
    }
  }

  // ---- what the blocks hold ----

  /** A column of a block; null throughout where the block lacks it. */
  ghost function ColumnIn(cols: Cols, c: Name): seq<Cell> { if c in cols then cols[c].cells else Nulls(Max(cols)) }

  /** One column of one partition, over the blocks in order. */
  ghost function Emitted(chunks: seq<Chunk>, p: Bytes, c: Name): seq<Cell> {
    if chunks == [] then []
    else
      var k := |chunks| - 1;
      Emitted(chunks[..k], p, c) + (if chunks[k].key == p then ColumnIn(chunks[k].cols, c) else [])
  }

  lemma {:induction false} EmittedConcat(a: seq<Chunk>, b: seq<Chunk>, p: Bytes, c: Name)
    ensures Emitted(a + b, p, c) == Emitted(a, p, c) + Emitted(b, p, c)
  {
    hide ColumnIn;
    if b == [] {
      assert a + b == a;
    } else {
      var k := |b| - 1;
      assert (a + b)[..|a + b| - 1] == a + b[..k];
      EmittedConcat(a, b[..k], p, c);
    }
  }

  lemma {:induction false} EmittedOnce(chunks: seq<Chunk>, p: Bytes, c: Name)
    requires OneChunkEach(chunks)
    ensures forall i :: 0 <= i < |chunks| && chunks[i].key == p ==> Emitted(chunks, p, c) == ColumnIn(chunks[i].cols, c)
    ensures !HasChunk(chunks, p) ==> Emitted(chunks, p, c) == []
  {
    hide ColumnIn;
    if chunks != [] {
      var k := |chunks| - 1;
      EmittedOnce(chunks[..k], p, c);
      assert forall i :: 0 <= i < k ==> chunks[..k][i] == chunks[i];
      if chunks[k].key == p {
        assert !HasChunk(chunks[..k], p);
      } else {
        assert HasChunk(chunks, p) <==> HasChunk(chunks[..k], p) by {
          if i :| 0 <= i < |chunks| && chunks[i].key == p { assert chunks[..k][i].key == p; }
          if i :| 0 <= i < k && chunks[..k][i].key == p { assert chunks[i].key == p; }
        }
      }
    }
  }

  /** What the rows of a partition land, flush by flush. */
  ghost function LandedIn(base: Cols, flushes: seq<Cut>, p: Bytes): seq<Landings> {
    if flushes == [] then []
    else
      var k := |flushes| - 1;
      LandedIn(base, flushes[..k], p) + Landed(base, PassesOf(flushes[k].seen, p))
  }

  /** Every row of the partition was aligned with the columns it found. */
  ghost predicate FileAligned(base: Cols, flushes: seq<Cut>, p: Bytes) {
    forall i :: 0 <= i < |flushes| ==> AllAligned(base, 0, PassesOf(flushes[i].seen, p))
  }

  /** A column of an even table grown from empty columns is what landed under its name. */
  lemma ColumnOfTable(base: Cols, landed: seq<Landings>, t: Cols, c: Name)
    requires Even(base, 0) && EvenTable(base, 0, landed, t)
    ensures ColumnIn(t, c) == Under(landed, c)
  {
    hide Max, Under, LandsSomewhere, Nulls, LandsFirst;
    assert IsTableAt(base, 0, landed, t, c);
    if c in t {
      if c in base { assert CountIn(base, c) == 0; }
      assert t[c].cells == [] + Under(landed, c);
    } else {
      UnderNowhere(landed, c);
    }
  }

  lemma AlignedCut(base: Cols, f: Cut, p: Bytes, c: Name)
    requires Even(base, 0) && Max(base) == 0 && GoodCut(base, f) && AllAligned(base, 0, PassesOf(f.seen, p))
    ensures Emitted(f.chunks, p, c) == Under(Landed(base, PassesOf(f.seen, p)), c)
  {
    hide Max, Even, AllAligned, EvenTable, Landed, Added, Emitted, ColumnIn, TotalSize, ChunksSize, KeysIn, PassesOf;
    EmittedOnce(f.chunks, p, c);
    var pending := PendingOf(base, f.seen);
    if p in KeysIn(f.seen) {
      assert HasChunk(f.chunks, p);
      AlignedRowsAreTranspose(base, 0, PassesOf(f.seen, p));
      ColumnOfTable(base, Landed(base, PassesOf(f.seen, p)), pending[p], c);
    } else {
      NoPasses(f.seen, p);
      NothingAdded(base, 0);
      assert !HasChunk(f.chunks, p);
    }
  }

  lemma UnderConcat(a: seq<Landings>, b: seq<Landings>, c: Name)
    ensures Under(a + b, c) == Under(a, c) + Under(b, c)
  {
  }

  /** Nothing lost, nothing repeated, nothing out of order: with every row aligned, the blocks of a partition hold,
      under every name, what its rows put there, one entry for each row that landed. */
  lemma {:induction false} AlignedFileConserved(base: Cols, flushes: seq<Cut>, p: Bytes, c: Name)
    requires Even(base, 0) && Max(base) == 0 && WellCut(base, flushes) && FileAligned(base, flushes, p)
    ensures Emitted(ChunksIn(flushes), p, c) == Under(LandedIn(base, flushes, p), c)
  {
    hide Max, Even, GoodCut, AllAligned, Landed, Emitted, PassesOf, Under;
    if flushes == [] {
      assert Emitted([], p, c) == [] by { NothingEmitted(p, c); }
      assert Under([], c) == [];
    } else {
      var k := |flushes| - 1;
      AlignedFileConserved(base, flushes[..k], p, c);
      AlignedCut(base, flushes[k], p, c);
      EmittedConcat(ChunksIn(flushes[..k]), flushes[k].chunks, p, c);
      UnderConcat(LandedIn(base, flushes[..k], p), Landed(base, PassesOf(flushes[k].seen, p)), c);
    }
  }

  lemma NothingEmitted(p: Bytes, c: Name) ensures Emitted([], p, c) == [] { }

  // ---- files whose rows all bring the same new columns ----

  /** The rows of one partition of the file. */
  function RowsOf(rows: seq<(Bytes, Row)>, p: Bytes): seq<Row> {
    if rows == [] then []
    else
      var k := |rows| - 1;
      RowsOf(rows[..k], p) + (if rows[k].0 == p then [rows[k].1] else [])
  }

  /** One after the other: the rows under the key, and no others. */
  lemma {:induction false} RowsOfIs(a: seq<(Bytes, Row)>, b: seq<(Bytes, Row)>, q: Bytes, row: Row, p: Bytes)
    ensures RowsOf([], p) == [] && RowsOf([(q, row)], p) == if q == p then [row] else []
    ensures RowsOf(a + b, p) == RowsOf(a, p) + RowsOf(b, p)
  {
    if b == [] {
      assert a + b == a;
    } else {
      var k := |b| - 1;
      assert (a + b)[..|a + b| - 1] == a + b[..k];
      RowsOfIs(a, b[..k], q, row, p);
    }
  }

  lemma {:induction false} RowsOfPlain(seen: seq<Arrival>, p: Bytes)
    ensures RowsOf(Plain(seen), p) == Rows(PassesOf(seen, p))
  {
    if seen != [] {
      var k := |seen| - 1;
      RowsOfPlain(seen[..k], p);
      assert Plain(seen)[..k] == Plain(seen[..k]);
    }
  }

  lemma {:induction false} PassesConcat(a: seq<Arrival>, b: seq<Arrival>, p: Bytes)
    ensures PassesOf(a + b, p) == PassesOf(a, p) + PassesOf(b, p)
  {
    if b == [] {
      assert a + b == a;
    } else {
      var k := |b| - 1;
      assert (a + b)[..|a + b| - 1] == a + b[..k];
      PassesConcat(a, b[..k], p);
    }
  }

  lemma {:induction false} LandRowsConcat(base: Cols, a: seq<Row>, b: seq<Row>)
    ensures LandRows(base, a + b) == LandRows(base, a) + LandRows(base, b)
  {
    hide Silent, Lands;
    if b == [] {
      assert a + b == a;
    } else {
      var k := |b| - 1;
      assert (a + b)[..|a + b| - 1] == a + b[..k];
      LandRowsConcat(base, a, b[..k]);
    }
  }

  lemma SteadyParts(base: Cols, a: seq<Row>, b: seq<Row>)
    requires Steady(base, 0, a + b)
    ensures Steady(base, 0, a) && Steady(base, 0, b)
  {
    hide New;
    assert forall i :: 0 <= i < |a| ==> (a + b)[i] == a[i];
    assert forall i :: 0 <= i < |b| ==> (a + b)[|a| + i] == b[i];
  }

  /** Steady rows are aligned wherever the file is cut, and what lands of them is told by the rows alone. */
  lemma {:induction false} SteadyFile(base: Cols, flushes: seq<Cut>, p: Bytes)
    requires Even(base, 0) && Max(base) == 0 && Steady(base, 0, Rows(PassesOf(SeenIn(flushes), p)))
    ensures FileAligned(base, flushes, p)
    ensures LandedIn(base, flushes, p) == LandRows(base, Rows(PassesOf(SeenIn(flushes), p)))
  {
    hide Max, Even, Steady, AllAligned, Landed, LandRows, PassesOf;
    if flushes == [] {
      assert PassesOf([], p) == [] by { NoPasses([], p); }
      assert LandRows(base, Rows([])) == [] by { NoRowsLand(base); }
    } else {
      var k := |flushes| - 1;
      var a, b := PassesOf(SeenIn(flushes[..k]), p), PassesOf(flushes[k].seen, p);
      PassesConcat(SeenIn(flushes[..k]), flushes[k].seen, p);
      assert Rows(a + b) == Rows(a) + Rows(b);
      SteadyParts(base, Rows(a), Rows(b));
      SteadyFile(base, flushes[..k], p);
      SteadyRows(base, 0, b);
      LandRowsConcat(base, Rows(a), Rows(b));
    }
  }

  /** With a filter that has every landing column, or with no filter and one header, or in between: if all rows of a
      partition bring the same new columns, its blocks hold exactly its rows in order, whatever the map orders and
      wherever the file was cut. */
  lemma SteadyFileConserved(filter: Option<map<Name, Type>>, flushes: seq<Cut>, rows: seq<(Bytes, Row)>, p: Bytes,
      c: Name)
    requires WellCut(Made(filter), flushes) && rows == Plain(SeenIn(flushes))
    requires Steady(Made(filter), 0, RowsOf(rows, p))
    ensures Emitted(ChunksIn(flushes), p, c) == Under(LandRows(Made(filter), RowsOf(rows, p)), c)
  {
    hide Max, Even, Steady, Made, WellCut, LandRows, Emitted, PassesOf, RowsOf, FileAligned;
    MadeIsEmpty(filter);
    RowsOfPlain(SeenIn(flushes), p);
    SteadyFile(Made(filter), flushes, p);
    AlignedFileConserved(Made(filter), flushes, p, c);
  }

  /** For every partition whose rows all bring the same new columns: under every name, the blocks hold what the rows put
      there, in order, one entry for each row that lands. */
  ghost predicate Faithful(chunks: seq<Chunk>, filter: Option<map<Name, Type>>, rows: seq<(Bytes, Row)>) {
    forall p, c :: Steady(Made(filter), 0, RowsOf(rows, p)) ==>
      Emitted(chunks, p, c) == Under(LandRows(Made(filter), RowsOf(rows, p)), c)
  }

  lemma FileFaithful(filter: Option<map<Name, Type>>, flushes: seq<Cut>)
    requires WellCut(Made(filter), flushes)
    ensures Faithful(ChunksIn(flushes), filter, Plain(SeenIn(flushes)))
  {
    hide Steady, Made, WellCut, LandRows, Emitted, RowsOf, Under;
    var chunks, rows := ChunksIn(flushes), Plain(SeenIn(flushes));
    forall p, c | Steady(Made(filter), 0, RowsOf(rows, p))
      ensures Emitted(chunks, p, c) == Under(LandRows(Made(filter), RowsOf(rows, p)), c)
    {
      SteadyFileConserved(filter, flushes, rows, p, c);
    }
  }

  // ---- no filter and one header ----

  /** Every row has a value, of a supported type, under each name of the header and no other. */
  predicate OneHeader(rows: seq<Row>, header: set<Name>) {
    forall i :: 0 <= i < |rows| ==>
      rows[i].values.Keys == header && forall c :: c in header ==> TypeIn(rows[i], c) != Unsupported
  }

  function ValuesUnder(rows: seq<Row>, c: Name): seq<Cell> {
    seq(|rows|, i requires 0 <= i < |rows| => ValueIn(rows[i], c))
  }

  lemma HeaderIsSteady(rows: seq<Row>, header: set<Name>)
    requires OneHeader(rows, header)
    ensures Steady(map[], 0, rows)
  {
    hide IsValidName, TypeIn;
    forall i | 0 <= i < |rows| ensures New(map[], rows[i]) == set c | c in header && IsValidName(c) { }
  }

  lemma NothingUnder(base: Cols, c: Name) ensures Under(LandRows(base, []), c) == [] { }

  lemma LandRowsNext(base: Cols, rows: seq<Row>, c: Name)
    requires rows != [] && !Silent(base, rows[|rows| - 1])
    ensures var init, m := rows[..|rows| - 1], Lands(base, rows[|rows| - 1]);
      Under(LandRows(base, rows), c) == Under(LandRows(base, init), c) + [if c in m then m[c].value else None]
  {
    hide Lands, Silent, Under;
    UnderSnoc(LandRows(base, rows[..|rows| - 1]), Lands(base, rows[|rows| - 1]), c);
  }

  lemma {:induction false} HeaderLands(rows: seq<Row>, header: set<Name>, c: Name)
    requires OneHeader(rows, header) && c in header && IsValidName(c)
    ensures Under(LandRows(map[], rows), c) == ValuesUnder(rows, c)
  {
    hide IsValidName, TypeIn, LandRows, Under;
    if rows == [] {
      NothingUnder(map[], c);
    } else {
      var k := |rows| - 1;
      HeaderLands(rows[..k], header, c);
      assert Contributes(map[], rows[k], c);
      LandRowsNext(map[], rows, c);
      assert ValuesUnder(rows, c) == ValuesUnder(rows[..k], c) + [ValueIn(rows[k], c)];
    }
  }

  /** A plain file under a dynamic schema: every column of every partition is the list of its rows' values, in order. */
  lemma DynamicFileConserved(flushes: seq<Cut>, rows: seq<(Bytes, Row)>, header: set<Name>, p: Bytes, c: Name)
    requires WellCut(Made(None), flushes) && rows == Plain(SeenIn(flushes))
    requires OneHeader(RowsOf(rows, p), header) && c in header && IsValidName(c)
    ensures var emitted, mine := Emitted(ChunksIn(flushes), p, c), RowsOf(rows, p);
      |emitted| == |mine| && forall i :: 0 <= i < |mine| ==> c in mine[i].values && emitted[i] == mine[i].values[c]
  {
    hide WellCut, LandRows, Emitted, RowsOf, IsValidName, Steady;
    HeaderIsSteady(RowsOf(rows, p), header);
    HeaderLands(RowsOf(rows, p), header, c);
    SteadyFileConserved(None, flushes, rows, p, c);
  }

  // ---- a filter that has every column ----

  /** Every row has only names of the filter, and at least one that is valid. */
  predicate Filtered(rows: seq<Row>, filter: map<Name, Type>) {
    forall i :: 0 <= i < |rows| ==> FilteredRow(rows[i], filter)
  }

  predicate FilteredRow(row: Row, filter: map<Name, Type>) {
    row.values.Keys <= filter.Keys && exists c :: c in row.values && IsValidName(c)
  }

  lemma FilteredIsSteady(rows: seq<Row>, filter: map<Name, Type>)
    requires Filtered(rows, filter)
    ensures Steady(Made(Some(filter)), 0, rows)
  {
    hide IsValidName;
    forall i | 0 <= i < |rows| ensures Premade(Made(Some(filter)), rows[i]) { assert FilteredRow(rows[i], filter); }
    PremadeIsSteady(Made(Some(filter)), 0, rows);
  }

  lemma {:induction false} FilteredLands(rows: seq<Row>, filter: map<Name, Type>, c: Name)
    requires Filtered(rows, filter) && c in filter
    ensures Under(LandRows(Made(Some(filter)), rows), c) == ValuesUnder(rows, c)
  {
    hide IsValidName, LandRows, Under;
    var base := Made(Some(filter));
    if rows == [] {
      NothingUnder(base, c);
    } else {
      var k := |rows| - 1;
      FilteredLands(rows[..k], filter, c);
      assert FilteredRow(rows[k], filter);
      var d :| d in rows[k].values && IsValidName(d);
      assert Contributes(base, rows[k], d);
      LandRowsNext(base, rows, c);
      assert ValuesUnder(rows, c) == ValuesUnder(rows[..k], c) + [ValueIn(rows[k], c)];
    }
  }

  /** A file under a static schema: every column of the filter is, row by row, the row's value or null. */
  lemma StaticFileConserved(filter: map<Name, Type>, flushes: seq<Cut>, rows: seq<(Bytes, Row)>, p: Bytes, c: Name)
    requires WellCut(Made(Some(filter)), flushes) && rows == Plain(SeenIn(flushes))
    requires Filtered(RowsOf(rows, p), filter) && c in filter
    ensures var emitted, mine := Emitted(ChunksIn(flushes), p, c), RowsOf(rows, p);
      && |emitted| == |mine|
      && forall i :: 0 <= i < |mine| ==>
           emitted[i] == if c in mine[i].values && IsValidName(c) then mine[i].values[c] else None
  {
    hide WellCut, LandRows, Emitted, RowsOf, IsValidName, Steady, Filtered;
    FilteredIsSteady(RowsOf(rows, p), filter);
    FilteredLands(RowsOf(rows, p), filter, c);
    SteadyFileConserved(Some(filter), flushes, rows, p, c);
  }
}

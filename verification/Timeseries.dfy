/** GetRows of the timeseries table: a byte-budgeted page of a range scan, resumed through a token. */
module Timeseries {
  import opened ByteStrings
  import opened Orders
  import opened Varints
  import opened Keys
  import opened Disk
  import opened ColumnData
  import opened ColumnSets
  import opened Schemas
  import Blocks

  /** What block.Read yields for the requested schema: the columns, and what their Size() reports. */
  datatype Frame = Frame(columns: map<Name, Column>, size: nat)

  /** None: the block cannot be read. */
  type Reader<!V> = V -> Option<Frame>

  datatype Page = Page(columns: seq<Column>, next: Option<Query>)

  /** The variables the scan callback captures. */
  datatype PageState = PageState(bytesLeft: int, frames: map<Name, seq<Column>>, token: Option<Query>)

  function ColumnOf(f: map<Name, Column>, c: Name): Column {
    if c in f then f[c] else Column(Unsupported, [])
  }

  function FramesOf(frames: map<Name, seq<Column>>, c: Name): seq<Column> {
    if c in frames then frames[c] else []
  }

  /** The loop that appends each requested column to the map. */
  function Collect(frames: map<Name, seq<Column>>, cols: seq<Name>, f: map<Name, Column>): map<Name, seq<Column>>
    decreases |cols|
  {
    if cols == [] then frames
    else
      var c := cols[0];
      Collect(frames[c := FramesOf(frames, c) + [ColumnOf(f, c)]], cols[1..], f)
  }

  /** The scan callback, with readDataFrame inlined: (new state, stop). */
  function PageStep<V>(read: Reader<V>, cols: seq<Name>, until: Bytes): (PageState, Bytes, V) -> (PageState, bool) {
    (st: PageState, key: Bytes, v: V) =>
      match read(v)
      case None => (st, false)
      case Some(f) =>
        if f.size >= st.bytesLeft then (st.(token := Some(Query(key, until))), true)
        else if f.size == 0 then (st, false)
        else (PageState(st.bytesLeft - f.size, Collect(st.frames, cols, f.columns), st.token), false)
  }

  function Cells(columns: seq<Column>): seq<Cell> {
    if columns == [] then [] else columns[0].cells + Cells(columns[1..])
  }

  /** The final merge: per requested column, one AppendBlock. */
  function Merge(cols: seq<Name>, schema: map<Name, Type>, frames: map<Name, seq<Column>>): (r: seq<Column>)
    requires forall c :: c in cols ==> c in schema
    ensures |r| == |cols|
  {
    seq(|cols|, j requires 0 <= j < |cols| => Column(schema[cols[j]], Cells(FramesOf(frames, cols[j]))))
  }

  function PageOf<V(!new)>(es: seq<Entry<V>>, q: Query, read: Reader<V>, cols: seq<Name>, schema: map<Name, Type>,
      budget: int): (p: Page)
    requires forall c :: c in cols ==> c in schema
    ensures |p.columns| == |cols|
  {
    var st := Scan(Visible(es, q.begin, q.until), PageStep(read, cols, q.until), PageState(budget, map[], None));
    Page(Merge(cols, schema, st.frames), st.token)
  }

  datatype Answer = Rows(page: Page) | UnknownColumn(name: Name) | BadSplit | Unavailable

  /** `read` is block.Read for a schema of requested columns. */
  class Table<V(!new)> {
    const store: Storage<V>
    var schema: map<Name, Type>
    const read: map<Name, Type> -> Reader<V>

    constructor (store: Storage<V>, schema: map<Name, Type>, read: map<Name, Type> -> Reader<V>)
      ensures this.store == store && this.schema == schema && this.read == read
    {
      this.store, this.schema, this.read := store, schema, read;
    }

    /** GetRows; `split` is None when the split cannot be decoded, `budget` is 95% of the byte limit. The blocks are
        read for the requested columns with the table's own types, and the page has those types. */
    method GetRows(split: Option<Query>, cols: seq<Name>, budget: int) returns (r: Answer)
      requires Sorted(store.entries)
      ensures r.UnknownColumn? <==> exists c :: c in cols && c !in schema
      ensures r.UnknownColumn? ==> r.name in cols && r.name !in schema
      ensures !r.UnknownColumn? ==> (r.BadSplit? <==> split.None?)
      ensures !r.UnknownColumn? && split.Some? ==> (r.Unavailable? <==> store.closed) && (r.Rows? <==> !store.closed)
      ensures r.Rows? ==> |r.page.columns| == |cols|
      ensures r.Rows? ==>
        forall j :: 0 <= j < |cols| ==> cols[j] in schema && r.page.columns[j].kind == schema[cols[j]]
      ensures r.Rows? ==> exists local: map<Name, Type> ::
        && (forall c :: c in local <==> c in cols)
        && (forall c :: c in cols ==> local[c] == schema[c])
        && r.page == PageOf(store.entries, split.value, read(local), cols, local, budget)
    {
      hide Scan, Visible, PageStep;
      var local: map<Name, Type> := map[];
      for i := 0 to |cols|
        invariant forall c :: c in cols[..i] ==> c in schema
        invariant forall c :: c in local <==> c in cols[..i]
        invariant forall c :: c in local ==> local[c] == schema[c]
      {
        if cols[i] !in schema { return UnknownColumn(cols[i]); }
        local := local[cols[i] := schema[cols[i]]];
        assert forall c :: c in cols[..i + 1] <==> c in cols[..i] || c == cols[i];
      }
      assert cols[..|cols|] == cols;
      if split.None? { return BadSplit; }
      var q := split.value;
      var s := store.Range(q.begin, q.until, PageStep(read(local), cols, q.until), PageState(budget, map[], None));
      if s.Closed? { return Unavailable; }
      var page := Page(Merge(cols, local, s.value.frames), s.value.token);
      assert page == PageOf(store.entries, q, read(local), cols, local, budget);
      return Rows(page);
    }
  }

  // ---- one page, in terms of the blocks it consumes ----

  /** How many of the scanned blocks fit: unreadable and empty ones cost nothing, the first that does not fit stops. */
  function Taken<V>(items: seq<(Bytes, V)>, read: Reader<V>, left: int): (n: nat)
    ensures n <= |items|
  {
    if items == [] then 0
    else
      match read(items[0].1)
      case None => 1 + Taken(items[1..], read, left)
      case Some(f) => if f.size >= left then 0 else 1 + Taken(items[1..], read, left - f.size)
  }

  /** The readable, non-empty blocks among those scanned. */
  function Frames<V>(items: seq<(Bytes, V)>, read: Reader<V>): seq<Frame> {
    if items == [] then []
    else
      var tail := Frames(items[1..], read);
      match read(items[0].1)
      case None => tail
      case Some(f) => if f.size == 0 then tail else [f] + tail
  }

  function CollectAll(frames: map<Name, seq<Column>>, cols: seq<Name>, fs: seq<Frame>): map<Name, seq<Column>>
    decreases |fs|
  {
    if fs == [] then frames else CollectAll(Collect(frames, cols, fs[0].columns), cols, fs[1..])
  }

  /** The callback run to its end: it consumes Taken blocks, collects their frames, and leaves a token at the next. */
  lemma {:induction false} PageScan<V(!new)>(items: seq<(Bytes, V)>, read: Reader<V>, cols: seq<Name>,
      until: Bytes, st: PageState)
    ensures var n := Taken(items, read, st.bytesLeft);
      var end := Scan(items, PageStep(read, cols, until), st);
      && end.frames == CollectAll(st.frames, cols, Frames(items[..n], read))
      && end.token == if n < |items| then Some(Query(items[n].0, until)) else st.token
    decreases |items|
  {
    hide Collect, Frames, CollectAll;
    var n := Taken(items, read, st.bytesLeft);
    FramesSteps(items[..n], read, st.frames, cols);
    if items != [] {
      var tail, f := items[1..], read(items[0].1);
      if f.None? {
        PageScan(tail, read, cols, until, st);
        assert items[..n][1..] == tail[..n - 1];
      } else if f.value.size < st.bytesLeft {
        var st' := if f.value.size == 0 then st
          else PageState(st.bytesLeft - f.value.size, Collect(st.frames, cols, f.value.columns), st.token);
        PageScan(tail, read, cols, until, st');
        assert items[..n][1..] == tail[..n - 1];
      }
    }
  }

  lemma FramesSteps<V>(items: seq<(Bytes, V)>, read: Reader<V>, frames: map<Name, seq<Column>>, cols: seq<Name>)
    ensures items == [] ==> CollectAll(frames, cols, Frames(items, read)) == frames
    ensures items != [] && (read(items[0].1).None? || read(items[0].1).value.size == 0) ==>
      Frames(items, read) == Frames(items[1..], read)
    ensures items != [] && read(items[0].1).Some? && read(items[0].1).value.size > 0 ==>
      CollectAll(frames, cols, Frames(items, read))
      == CollectAll(Collect(frames, cols, read(items[0].1).value.columns), cols, Frames(items[1..], read))
  {
    hide Collect;
    if items != [] && read(items[0].1).Some? && read(items[0].1).value.size > 0 {
      assert Frames(items, read)[1..] == Frames(items[1..], read);
    }
  }

  lemma {:induction false} CollectIs(frames: map<Name, seq<Column>>, cols: seq<Name>, f: map<Name, Column>, c: Name)
    requires Distinct(cols)
    ensures FramesOf(Collect(frames, cols, f), c)
         == if c in cols then FramesOf(frames, c) + [ColumnOf(f, c)] else FramesOf(frames, c)
    decreases |cols|
  {
    if cols != [] {
      var c0 := cols[0];
      CollectIs(frames[c0 := FramesOf(frames, c0) + [ColumnOf(f, c0)]], cols[1..], f, c);
      assert c in cols <==> c == c0 || c in cols[1..];
    }
  }

  /** One column of every frame. */
  function Slice(fs: seq<Frame>, c: Name): seq<Column> {
    if fs == [] then [] else [ColumnOf(fs[0].columns, c)] + Slice(fs[1..], c)
  }

  lemma {:induction false} CollectAllIs(frames: map<Name, seq<Column>>, cols: seq<Name>, fs: seq<Frame>, c: Name)
    requires Distinct(cols) && c in cols
    ensures FramesOf(CollectAll(frames, cols, fs), c) == FramesOf(frames, c) + Slice(fs, c)
    decreases |fs|
  {
    hide Collect, FramesOf, ColumnOf, Distinct;
    if fs == [] {
      assert FramesOf(frames, c) + [] == FramesOf(frames, c);
    } else {
      CollectIs(frames, cols, fs[0].columns, c);
      CollectAllIs(Collect(frames, cols, fs[0].columns), cols, fs[1..], c);
      var a, x, rest := FramesOf(frames, c), [ColumnOf(fs[0].columns, c)], Slice(fs[1..], c);
      assert a + x + rest == a + (x + rest);
    }
  }

  /** A page holds, column by column, the frames of the blocks it consumed, in order; its token is the next block. */
  lemma PageIs<V(!new)>(es: seq<Entry<V>>, q: Query, read: Reader<V>, cols: seq<Name>, schema: map<Name, Type>,
      budget: int)
    requires Distinct(cols) && forall c :: c in cols ==> c in schema
    ensures var items := Visible(es, q.begin, q.until);
      var n := Taken(items, read, budget);
      var p := PageOf(es, q, read, cols, schema, budget);
      && (forall j :: 0 <= j < |cols| ==>
           p.columns[j] == Column(schema[cols[j]], Cells(Slice(Frames(items[..n], read), cols[j]))))
      && p.next == if n < |items| then Some(Query(items[n].0, q.until)) else None
  {
    hide Visible, Scan, Taken, Cells, PageStep, CollectAll, Frames;
    var items := Visible(es, q.begin, q.until);
    var n := Taken(items, read, budget);
    PageScan(items, read, cols, q.until, PageState(budget, map[], None));
    var fs := Frames(items[..n], read);
    forall j | 0 <= j < |cols|
      ensures FramesOf(CollectAll(map[], cols, fs), cols[j]) == Slice(fs, cols[j])
    {
      CollectAllIs(map[], cols, fs, cols[j]);
      assert [] + Slice(fs, cols[j]) == Slice(fs, cols[j]);
    }
  }

  lemma {:induction false} TakenIsGreedy<V>(items: seq<(Bytes, V)>, read: Reader<V>, left: int)
    ensures var n := Taken(items, read, left);
      n < |items| ==>
        read(items[n].1).Some? && FramesSize(Frames(items[..n], read)) + read(items[n].1).value.size >= left
  {
    var n := Taken(items, read, left);
    if n == 0 {
      assert Frames(items[..0], read) == [];
    } else {
      assert items[..n][1..] == items[1..][..n - 1];
      var f := read(items[0].1);
      TakenIsGreedy(items[1..], read, if f.None? then left else left - f.value.size);
    }
  }

  /** A page is cut only at a block that no longer fits beside those before it. */
  lemma PageIsGreedy<V(!new)>(es: seq<Entry<V>>, q: Query, read: Reader<V>, cols: seq<Name>, schema: map<Name, Type>,
      budget: int)
    requires Distinct(cols) && forall c :: c in cols ==> c in schema
    ensures var items, next := Visible(es, q.begin, q.until), PageOf(es, q, read, cols, schema, budget).next;
      next.Some? ==> exists k ::
        && 0 <= k < |items| && next.value == Query(items[k].0, q.until) && read(items[k].1).Some?
        && FramesSize(Frames(items[..k], read)) + read(items[k].1).value.size >= budget
  {
    hide Visible, PageOf, Cells, Slice, Frames, FramesSize, Taken;
    var items := Visible(es, q.begin, q.until);
    PageIs(es, q, read, cols, schema, budget);
    TakenIsGreedy(items, read, budget);
  }

  // ---- resuming ----

  lemma {:induction false} VisibleKeys<V(!new)>(es: seq<Entry<V>>, seek: Bytes, until: Bytes, n: nat)
    requires n < |Visible(es, seek, until)|
    ensures var k := Visible(es, seek, until)[n].0;
      Leq(seek, k) && Leq(k, until) && exists e :: e in es && e.key == k
  {
    if es != [] {
      var tail := Visible(es[1..], seek, until);
      if Leq(seek, es[0].key) && Leq(es[0].key, until) && es[0].value.Some? {
        if n > 0 { VisibleKeys(es[1..], seek, until, n - 1); }
      } else {
        VisibleKeys(es[1..], seek, until, n);
      }
    }
  }

  lemma {:induction false} VisibleFromLower<V(!new)>(es: seq<Entry<V>>, a: Bytes, b: Bytes, until: Bytes)
    requires forall e :: e in es ==> Leq(a, e.key) && Leq(b, e.key)
    ensures Visible(es, a, until) == Visible(es, b, until)
  {
    if es != [] { VisibleFromLower(es[1..], a, b, until); }
  }

  /** Seeking to the n-th visible key shows what was visible from there on: nothing lost, nothing repeated. */
  lemma {:induction false} Resume<V(!new)>(es: seq<Entry<V>>, seek: Bytes, until: Bytes, n: nat)
    requires Sorted(es) && n < |Visible(es, seek, until)|
    ensures Visible(es, Visible(es, seek, until)[n].0, until) == Visible(es, seek, until)[n..]
  {
    hide Leq;
    var items := Visible(es, seek, until);
    var e, rest, k := es[0], es[1..], items[n].0;
    VisibleKeys(es, seek, until, n);
    if Leq(seek, e.key) && Leq(e.key, until) && e.value.Some? {
      if n == 0 {
        LeqReflexive(k);
        forall x | x in rest ensures Leq(k, x.key) && Leq(seek, x.key) {
          LeqTransitive(seek, k, x.key);
        }
        VisibleFromLower(rest, k, seek, until);
        assert items[0..] == items;
      } else {
        Resume(rest, seek, until, n - 1);
        VisibleKeys(rest, seek, until, n - 1);
        LessIsNotGeq(e.key, k);
        assert items[n..] == Visible(rest, seek, until)[n - 1..];
      }
    } else {
      Resume(rest, seek, until, n);
      if Leq(k, e.key) { LeqTransitive(seek, k, e.key); }
    }
  }

  // ---- following the tokens ----

  datatype Trail = Trail(pages: seq<Page>, next: Option<Query>)

  /** What a client holds after at most `n` requests, each passing the last page's token back. */
  function Follow<V(!new)>(es: seq<Entry<V>>, q: Query, read: Reader<V>, cols: seq<Name>, schema: map<Name, Type>,
      budget: int,
      n: nat): Trail
    requires forall c :: c in cols ==> c in schema
    decreases n
  {
    if n == 0 then Trail([], Some(q))
    else
      var p := PageOf(es, q, read, cols, schema, budget);
      match p.next
      case None => Trail([p], None)
      case Some(q') =>
        var t := Follow(es, q', read, cols, schema, budget, n - 1);
        Trail([p] + t.pages, t.next)
  }

  /** The rows of column `j` over all pages. */
  function PagedCells(pages: seq<Page>, j: nat): seq<Cell>
    requires forall p :: p in pages ==> j < |p.columns|
  {
    if pages == [] then [] else pages[0].columns[j].cells + PagedCells(pages[1..], j)
  }

  lemma {:induction false} FollowWidth<V(!new)>(es: seq<Entry<V>>, q: Query, read: Reader<V>, cols: seq<Name>,
      schema: map<Name, Type>, budget: int, n: nat)
    requires forall c :: c in cols ==> c in schema
    ensures forall p :: p in Follow(es, q, read, cols, schema, budget, n).pages ==> |p.columns| == |cols|
    decreases n
  {
    hide PageOf;
    if n > 0 {
      var p := PageOf(es, q, read, cols, schema, budget);
      if p.next.Some? { FollowWidth(es, p.next.value, read, cols, schema, budget, n - 1); }
    }
  }

  lemma {:induction false} FramesConcat<V>(a: seq<(Bytes, V)>, b: seq<(Bytes, V)>, read: Reader<V>)
    ensures Frames(a + b, read) == Frames(a, read) + Frames(b, read)
  {
    if a == [] {
      assert a + b == b;
    } else {
      assert (a + b)[1..] == a[1..] + b;
      FramesConcat(a[1..], b, read);
    }
  }

  lemma {:induction false} SliceConcat(a: seq<Frame>, b: seq<Frame>, c: Name)
    ensures Cells(Slice(a + b, c)) == Cells(Slice(a, c)) + Cells(Slice(b, c))
  {
    if a == [] {
      assert a + b == b;
    } else {
      assert (a + b)[1..] == a[1..] + b;
      SliceConcat(a[1..], b, c);
    }
  }

  /** Paging refines a full scan: when the last page has come, the pages joined are the in-order concatenation of every
      readable, non-empty block in range. No row is lost or repeated, whatever the budget was. */
  lemma {:induction false} PagesRefineScan<V(!new)>(es: seq<Entry<V>>, q: Query, read: Reader<V>, cols: seq<Name>,
      schema: map<Name, Type>, budget: int, n: nat, j: nat)
    requires Sorted(es) && Distinct(cols) && forall c :: c in cols ==> c in schema
    requires j < |cols| && Follow(es, q, read, cols, schema, budget, n).next.None?
    ensures forall p :: p in Follow(es, q, read, cols, schema, budget, n).pages ==> |p.columns| == |cols|
    ensures PagedCells(Follow(es, q, read, cols, schema, budget, n).pages, j)
         == Cells(Slice(Frames(Visible(es, q.begin, q.until), read), cols[j]))
    decreases n
  {
    hide PageOf, Visible, Cells, Slice, Frames, Taken;
    FollowWidth(es, q, read, cols, schema, budget, n);
    var items := Visible(es, q.begin, q.until);
    var p := PageOf(es, q, read, cols, schema, budget);
    PageIs(es, q, read, cols, schema, budget);
    var k := Taken(items, read, budget);
    if p.next.None? {
      assert items[..k] == items;
      assert PagedCells([p], j) == p.columns[j].cells + [];
    } else {
      var t := Follow(es, p.next.value, read, cols, schema, budget, n - 1);
      PagesRefineScan(es, p.next.value, read, cols, schema, budget, n - 1, j);
      Resume(es, q.begin, q.until, k);
      assert ([p] + t.pages)[1..] == t.pages;
      FramesConcat(items[..k], items[k..], read);
      assert items[..k] + items[k..] == items;
      SliceConcat(Frames(items[..k], read), Frames(items[k..], read), cols[j]);
    }
  }

  // ---- when paging ends ----

  predicate Fits<V>(item: (Bytes, V), read: Reader<V>, budget: int) {
    read(item.1).Some? ==> read(item.1).value.size < budget
  }

  ghost predicate AllFit<V(!new)>(items: seq<(Bytes, V)>, read: Reader<V>, budget: int) {
    forall i :: 0 <= i < |items| ==> Fits(items[i], read, budget)
  }

  lemma {:induction false} TakenStopsAtOversize<V>(items: seq<(Bytes, V)>, read: Reader<V>, left: int, budget: int,
      i: nat)
    requires left <= budget && i < |items| && !Fits(items[i], read, budget)
    ensures Taken(items, read, left) <= i
  {
    if i > 0 && read(items[0].1).None? {
      TakenStopsAtOversize(items[1..], read, left, budget, i - 1);
    } else if i > 0 && read(items[0].1).value.size < left {
      TakenStopsAtOversize(items[1..], read, left - read(items[0].1).value.size, budget, i - 1);
    }
  }

  /** A block too large for the budget is never passed: the token sticks at it and following tokens never ends. */
  lemma {:induction false} OversizeNeverEnds<V(!new)>(es: seq<Entry<V>>, q: Query, read: Reader<V>, cols: seq<Name>,
      schema: map<Name, Type>, budget: int, i: nat, n: nat)
    requires Sorted(es) && Distinct(cols) && forall c :: c in cols ==> c in schema
    requires i < |Visible(es, q.begin, q.until)| && !Fits(Visible(es, q.begin, q.until)[i], read, budget)
    ensures Follow(es, q, read, cols, schema, budget, n).next.Some?
    decreases n
  {
    hide PageOf, Visible, Cells, Slice, Frames, Fits;
    if n > 0 {
      var items := Visible(es, q.begin, q.until);
      PageIs(es, q, read, cols, schema, budget);
      TakenStopsAtOversize(items, read, budget, budget, i);
      var k := Taken(items, read, budget);
      var q' := Query(items[k].0, q.until);
      Resume(es, q.begin, q.until, k);
      assert items[k..][i - k] == items[i];
      OversizeNeverEnds(es, q', read, cols, schema, budget, i - k, n - 1);
    }
  }

  /** If every block fits, a page that leaves a token has consumed at least one block: strictly fewer remain. */
  lemma TokenAdvances<V(!new)>(es: seq<Entry<V>>, q: Query, read: Reader<V>, cols: seq<Name>, schema: map<Name, Type>,
      budget: int)
    requires Sorted(es) && Distinct(cols) && forall c :: c in cols ==> c in schema
    requires AllFit(Visible(es, q.begin, q.until), read, budget)
    ensures var items, next := Visible(es, q.begin, q.until), PageOf(es, q, read, cols, schema, budget).next;
      next.Some? ==>
        && next.value.until == q.until && |Visible(es, next.value.begin, q.until)| < |items|
        && AllFit(Visible(es, next.value.begin, q.until), read, budget)
  {
    hide PageOf, Visible, Cells, Slice, Frames;
    var items := Visible(es, q.begin, q.until);
    PageIs(es, q, read, cols, schema, budget);
    var k := Taken(items, read, budget);
    if k < |items| {
      assert Fits(items[0], read, budget);
      assert k > 0;
      Resume(es, q.begin, q.until, k);
      forall i | 0 <= i < |items[k..]| ensures Fits(items[k..][i], read, budget) {
        assert items[k..][i] == items[k + i];
      }
    }
  }

  /** ... so the tokens run out. */
  lemma {:induction false} FittingEnds<V(!new)>(es: seq<Entry<V>>, q: Query, read: Reader<V>, cols: seq<Name>,
      schema: map<Name, Type>, budget: int, n: nat)
    requires Sorted(es) && Distinct(cols) && forall c :: c in cols ==> c in schema
    requires AllFit(Visible(es, q.begin, q.until), read, budget) && n > |Visible(es, q.begin, q.until)|
    ensures Follow(es, q, read, cols, schema, budget, n).next.None?
    decreases n
  {
    hide PageOf, Visible, AllFit;
    TokenAdvances(es, q, read, cols, schema, budget);
    var next := PageOf(es, q, read, cols, schema, budget).next;
    if next.Some? { FittingEnds(es, next.value, read, cols, schema, budget, n - 1); }
  }

  /** Following tokens ends exactly when every readable block in range is smaller than the budget. */
  lemma PagingEndsIff<V(!new)>(es: seq<Entry<V>>, q: Query, read: Reader<V>, cols: seq<Name>, schema: map<Name, Type>,
      budget: int)
    requires Sorted(es) && Distinct(cols) && forall c :: c in cols ==> c in schema
    ensures (exists n: nat :: Follow(es, q, read, cols, schema, budget, n).next.None?)
       <==> AllFit(Visible(es, q.begin, q.until), read, budget)
  {
    hide Follow, Visible, Fits;
    var items := Visible(es, q.begin, q.until);
    if AllFit(items, read, budget) {
      FittingEnds(es, q, read, cols, schema, budget, |items| + 1);
    } else {
      var i :| 0 <= i < |items| && !Fits(items[i], read, budget);
      forall n: nat ensures Follow(es, q, read, cols, schema, budget, n).next.Some? {
        OversizeNeverEnds(es, q, read, cols, schema, budget, i, n);
      }
    }
  }

  // ---- the shape of a page ----

  /** What Read promises of a non-empty frame: every requested column with its type, all of one length, and a size that
      counts every column of the frame. */
  ghost predicate GoodFrame(f: Frame, cols: seq<Name>, schema: map<Name, Type>) {
    && f.size == SetSize(f.columns)
    && (forall c :: c in cols ==> c in schema && c in f.columns && f.columns[c].kind == schema[c])
    && (forall c, d :: c in cols && d in cols ==> |f.columns[c].cells| == |f.columns[d].cells|)
  }

  lemma {:induction false} SumWithinSet(order: seq<Name>, s: set<Name>, f: Name -> nat)
    requires Distinct(order) && forall c :: c in order ==> c in s
    ensures Sum(order, f) <= SetSum(s, f)
    decreases |order|
  {
    if order != [] {
      var c := order[0];
      SetSumRemove(s, c, f);
      SumWithinSet(order[1..], s - {c}, f);
    }
  }

  lemma {:induction false} SumPointwise(order: seq<Name>, f: Name -> nat, g: Name -> nat, h: Name -> nat)
    requires forall c :: c in order ==> h(c) == f(c) + g(c)
    ensures Sum(order, h) == Sum(order, f) + Sum(order, g)
  {
    if order != [] { SumPointwise(order[1..], f, g, h); }
  }

  function FramesSize(fs: seq<Frame>): nat {
    if fs == [] then 0 else fs[0].size + FramesSize(fs[1..])
  }

  function MergedSize(fs: seq<Frame>, schema: map<Name, Type>): Name -> nat {
    c => if c in schema then CellsSize(schema[c], Cells(Slice(fs, c))) else 0
  }

  lemma {:induction false} MergedWithinFrames(fs: seq<Frame>, cols: seq<Name>, schema: map<Name, Type>)
    requires Distinct(cols) && forall c :: c in cols ==> c in schema
    requires forall f :: f in fs ==> GoodFrame(f, cols, schema)
    ensures Sum(cols, MergedSize(fs, schema)) <= FramesSize(fs)
    decreases |fs|
  {
    hide CellsSize, SetSum, Sum, Cells, Slice;
    if fs == [] {
      forall c | c in cols ensures MergedSize(fs, schema)(c) == 0 { EmptySize(schema[c]); SliceHead(fs, c); }
      SumZero(cols, MergedSize(fs, schema));
    } else {
      var f, rest := fs[0], fs[1..];
      assert GoodFrame(f, cols, schema);
      MergedWithinFrames(rest, cols, schema);
      forall c | c in cols
        ensures MergedSize(fs, schema)(c) == SizeIn(f.columns)(c) + MergedSize(rest, schema)(c)
      {
        SliceHead(fs, c);
        CellsSizeConcat(schema[c], f.columns[c].cells, Cells(Slice(rest, c)));
      }
      SumPointwise(cols, SizeIn(f.columns), MergedSize(rest, schema), MergedSize(fs, schema));
      SumWithinSet(cols, f.columns.Keys, SizeIn(f.columns));
    }
  }

  lemma SliceHead(fs: seq<Frame>, c: Name)
    ensures fs == [] ==> Cells(Slice(fs, c)) == []
    ensures fs != [] ==> Cells(Slice(fs, c)) == ColumnOf(fs[0].columns, c).cells + Cells(Slice(fs[1..], c))
  {
  }

  lemma EmptySize(kind: Type) ensures CellsSize(kind, []) == 0 { }

  lemma {:induction false} SumZero(order: seq<Name>, f: Name -> nat)
    requires forall c :: c in order ==> f(c) == 0
    ensures Sum(order, f) == 0
  {
    if order != [] { SumZero(order[1..], f); }
  }

  lemma {:induction false} TakenWithinBudget<V>(items: seq<(Bytes, V)>, read: Reader<V>, left: int)
    ensures var fs := Frames(items[..Taken(items, read, left)], read);
      fs == [] || FramesSize(fs) < left
  {
    var n := Taken(items, read, left);
    if n > 0 {
      assert items[..n][1..] == items[1..][..n - 1];
      var f := read(items[0].1);
      TakenWithinBudget(items[1..], read, if f.None? then left else left - f.value.size);
    }
  }

  function ColumnsSize(columns: seq<Column>): nat {
    if columns == [] then 0 else ColumnSize(columns[0]) + ColumnsSize(columns[1..])
  }

  lemma {:induction false} ColumnsSizeIsSum(columns: seq<Column>, cols: seq<Name>, f: Name -> nat)
    requires |columns| == |cols| && forall j :: 0 <= j < |cols| ==> ColumnSize(columns[j]) == f(cols[j])
    ensures ColumnsSize(columns) == Sum(cols, f)
  {
    if cols != [] { ColumnsSizeIsSum(columns[1..], cols[1..], f); }
  }

  lemma {:induction false} SlicesEven(fs: seq<Frame>, cols: seq<Name>, schema: map<Name, Type>, c: Name, d: Name)
    requires c in cols && d in cols && forall f :: f in fs ==> GoodFrame(f, cols, schema)
    ensures |Cells(Slice(fs, c))| == |Cells(Slice(fs, d))|
    decreases |fs|
  {
    hide SetSum;
    if fs != [] {
      assert GoodFrame(fs[0], cols, schema);
      SlicesEven(fs[1..], cols, schema, c, d);
    }
  }

  lemma {:induction false} FramesMembers<V(!new)>(items: seq<(Bytes, V)>, read: Reader<V>)
    ensures forall f :: f in Frames(items, read) ==>
      f.size > 0 && exists i :: 0 <= i < |items| && read(items[i].1) == Some(f)
  {
    if items != [] {
      FramesMembers(items[1..], read);
      forall f | f in Frames(items, read)
        ensures f.size > 0 && exists i :: 0 <= i < |items| && read(items[i].1) == Some(f)
      {
        if f in Frames(items[1..], read) {
          var i :| 0 <= i < |items[1..]| && read(items[1..][i].1) == Some(f);
          assert read(items[i + 1].1) == Some(f);
        } else {
          assert read(items[0].1) == Some(f);
        }
      }
    }
  }

  /** A page stays under the budget, and its columns all have the same number of rows. */
  lemma PageShape<V(!new)>(es: seq<Entry<V>>, q: Query, read: Reader<V>, cols: seq<Name>, schema: map<Name, Type>,
      budget: int)
    requires Distinct(cols) && forall c :: c in cols ==> c in schema
    requires forall i :: 0 <= i < |Visible(es, q.begin, q.until)| ==>
      var f := read(Visible(es, q.begin, q.until)[i].1);
      f.Some? && f.value.size > 0 ==> GoodFrame(f.value, cols, schema)
    ensures var p := PageOf(es, q, read, cols, schema, budget);
      && (ColumnsSize(p.columns) == 0 || ColumnsSize(p.columns) < budget)
      && forall i, j :: 0 <= i < |cols| && 0 <= j < |cols| ==> |p.columns[i].cells| == |p.columns[j].cells|
  {
    hide Visible, PageOf, Cells, Slice, GoodFrame, Taken, Frames, FramesSize, Sum;
    var items := Visible(es, q.begin, q.until);
    var n := Taken(items, read, budget);
    var fs := Frames(items[..n], read);
    var p := PageOf(es, q, read, cols, schema, budget);
    PageIs(es, q, read, cols, schema, budget);
    FramesMembers(items[..n], read);
    forall f | f in fs ensures GoodFrame(f, cols, schema) {
      var i :| 0 <= i < |items[..n]| && read(items[..n][i].1) == Some(f);
      assert read(items[i].1) == Some(f);
    }
    MergedWithinFrames(fs, cols, schema);
    ColumnsSizeIsSum(p.columns, cols, MergedSize(fs, schema));
    TakenWithinBudget(items, read, budget);
    assert fs == [] ==> FramesSize(fs) == 0 by { NoFramesNoSize(); }
    forall i, j | 0 <= i < |cols| && 0 <= j < |cols|
      ensures |p.columns[i].cells| == |p.columns[j].cells|
    {
      SlicesEven(fs, cols, schema, cols[i], cols[j]);
    }
  }

  lemma NoFramesNoSize() ensures FramesSize([]) == 0 { }

  // ---- which blocks a query covers ----

  lemma {:induction false} VisibleExactly<V(!new)>(es: seq<Entry<V>>, seek: Bytes, until: Bytes, key: Bytes, v: V)
    ensures (key, v) in Visible(es, seek, until)
       <==> Entry(key, Some(v)) in es && Leq(seek, key) && Leq(key, until)
  {
    if es != [] { VisibleExactly(es[1..], seek, until, key, v); }
  }

  /** A query for a hash and a time range covers exactly the stored blocks of that hash whose second is in the range. */
  lemma QueryCovers<V(!new)>(es: seq<Entry<V>>, h: Uint32, from: Uint64, until: Uint64, kh: Uint32, ks: Uint64,
      kn: Uint32, v: V)
    ensures var q := QueryOf(h, from, until);
      (KeyOf(kh, ks, kn), v) in Visible(es, q.begin, q.until)
      <==> Entry(KeyOf(kh, ks, kn), Some(v)) in es && kh == h && from <= ks < until
  {
    hide Visible, QueryOf, KeyOf, Leq;
    var q := QueryOf(h, from, until);
    VisibleExactly(es, q.begin, q.until, KeyOf(kh, ks, kn), v);
    IndexScanExact(h, from, until, kh, ks, kn);
  }

  // ---- blocks as frames ----

  /** readDataFrame on an encoded block whose reading does not panic. */
  ghost predicate ReadsBlock(read: Reader<Blocks.Stored>, b: Blocks.Stored, local: Schema, codec: Blocks.Codec) {
    exists r: Blocks.ReadResult :: Blocks.MayRead(b, local, codec, r) && !r.Panics? && read(b) == FrameOf(r)
  }

  ghost function FrameOf(r: Blocks.ReadResult): Option<Frame> {
    match r
    case Columns(cols) => Some(Frame(cols, SetSize(cols)))
    case _ => None
  }

  /** A block written of even, supported columns. */
  ghost predicate Holds(b: Blocks.Stored, cols: Cols, n: nat, codec: Blocks.Codec) {
    Blocks.Written(b, cols, codec) && Blocks.Supported(cols) && Even(cols, n)
  }

  /** Every non-empty frame read from a block written of even columns is as the paging needs it. */
  lemma BlockFramesAreGood(read: Reader<Blocks.Stored>, b: Blocks.Stored, stored: Cols, n: nat, cols: seq<Name>,
      local: Schema, codec: Blocks.Codec)
    requires Holds(b, stored, n, codec) && Blocks.RoundTrips(codec) && ReadsBlock(read, b, local, codec)
    requires forall c :: c in cols <==> c in local
    ensures var f := read(b); f.Some? && f.value.size > 0 ==> GoodFrame(f.value, cols, local)
  {
    hide Blocks.MayRead, SetSize, Blocks.Written, Blocks.RoundTrips, Blocks.Supported;
    var r :| Blocks.MayRead(b, local, codec, r) && !r.Panics? && read(b) == FrameOf(r);
    Blocks.ReadIsComplete(b, stored, n, local, codec, r);
    NoColumnsNoSize();
  }

  lemma NoColumnsNoSize() ensures SetSize(map[]) == 0 { }

  /** What a block shows under a requested column: the stored values where name and type match, nulls where they do not,
      and nothing at all when no column of the block survives. */
  ghost function Shown(stored: Cols, n: nat, local: Schema, c: Name): seq<Cell>
    requires c in local
  {
    var misses := Misses(Blocks.KindsOf(stored), local);
    if misses != map[] && Except(Blocks.KindsOf(stored), misses) == map[] then []
    else if c in stored && stored[c].kind == local[c] then stored[c].cells
    else Nulls(n)
  }

  lemma OutcomeShows(stored: Cols, n: nat, local: Schema, c: Name)
    requires Even(stored, n) && c in local && Blocks.Outcome(stored, n, local).Columns?
    ensures ColumnOf(Blocks.Outcome(stored, n, local).cols, c).cells == Shown(stored, n, local, c)
  {
    hide Blocks.View;
    Blocks.ViewIsComplete(stored, n, local);
    if Misses(Blocks.KindsOf(stored), local) == map[] { assert c !in Misses(Blocks.KindsOf(stored), local); }
  }

  lemma {:induction false} PositiveCells(kind: Type, cells: seq<Cell>)
    ensures |cells| <= CellsSize(kind, cells)
  {
    if cells != [] { PositiveCells(kind, cells[..|cells| - 1]); }
  }

  /** An empty frame has no rows. */
  lemma EmptyFrame(cols: Cols, c: Name)
    requires SetSize(cols) == 0
    ensures ColumnOf(cols, c).cells == []
  {
    hide SetSum;
    if c in cols {
      SetSumRemove(cols.Keys, c, SizeIn(cols));
      PositiveCells(cols[c].kind, cols[c].cells);
    }
  }

  /** What one block adds to a column of the scan. */
  lemma BlockShows(read: Reader<Blocks.Stored>, item: (Bytes, Blocks.Stored), stored: Cols, n: nat, local: Schema,
      codec: Blocks.Codec, c: Name)
    requires Holds(item.1, stored, n, codec) && Blocks.RoundTrips(codec) && ReadsBlock(read, item.1, local, codec)
    requires c in local
    ensures Cells(Slice(Frames([item], read), c)) == Shown(stored, n, local, c)
  {
    hide Blocks.MayRead, SetSize, Blocks.Written, Blocks.RoundTrips, Blocks.Supported, Blocks.Outcome, Shown;
    var r :| Blocks.MayRead(item.1, local, codec, r) && !r.Panics? && read(item.1) == FrameOf(r);
    Blocks.ReadExact(item.1, stored, n, local, codec, r);
    assert r.Columns? by { NeverFails(stored, n, local); }
    OutcomeShows(stored, n, local, c);
    assert [item][1..] == [];
    var f := Frame(r.cols, SetSize(r.cols));
    if f.size == 0 {
      EmptyFrame(r.cols, c);
      assert Frames([item], read) == [];
    } else {
      assert Frames([item], read) == [f] && [f][1..] == [];
      assert Cells(Slice([f], c)) == ColumnOf(r.cols, c).cells + [];
    }
  }

  lemma NeverFails(stored: Cols, n: nat, local: Schema) ensures !Blocks.Outcome(stored, n, local).Failed? { }

  /** The contents of the blocks in range, each with its row count, under one requested column. */
  ghost function ShownIn(contents: seq<(Cols, nat)>, local: Schema, c: Name): seq<Cell>
    requires c in local
  {
    if contents == [] then [] else Shown(contents[0].0, contents[0].1, local, c) + ShownIn(contents[1..], local, c)
  }

  ghost predicate Contains(items: seq<(Bytes, Blocks.Stored)>, contents: seq<(Cols, nat)>, codec: Blocks.Codec) {
    |items| == |contents| && forall i :: 0 <= i < |items| ==> Holds(items[i].1, contents[i].0, contents[i].1, codec)
  }

  lemma {:induction false} ScanShows(read: Reader<Blocks.Stored>, items: seq<(Bytes, Blocks.Stored)>,
      contents: seq<(Cols, nat)>, local: Schema, codec: Blocks.Codec, c: Name)
    requires Contains(items, contents, codec) && Blocks.RoundTrips(codec) && c in local
    requires forall i :: 0 <= i < |items| ==> ReadsBlock(read, items[i].1, local, codec)
    ensures Cells(Slice(Frames(items, read), c)) == ShownIn(contents, local, c)
  {
    hide Holds, Blocks.RoundTrips, ReadsBlock, Shown, Slice, Cells, Frames;
    if items == [] {
      NothingScanned(read, c);
    } else {
      ScanShows(read, items[1..], contents[1..], local, codec, c);
      BlockShows(read, items[0], contents[0].0, contents[0].1, local, codec, c);
      assert items == [items[0]] + items[1..];
      FramesConcat([items[0]], items[1..], read);
      SliceConcat(Frames([items[0]], read), Frames(items[1..], read), c);
    }
  }

  lemma NothingScanned(read: Reader<Blocks.Stored>, c: Name) ensures Cells(Slice(Frames([], read), c)) == [] { }

  /** From the blocks as they were written to the rows a client sees: the pages joined are, column by column, what the
      blocks in range show under the requested schema, in key order. */
  lemma PagesShowBlocks(es: seq<Entry<Blocks.Stored>>, q: Query, read: Reader<Blocks.Stored>, cols: seq<Name>,
      local: Schema, budget: int, n: nat, j: nat, contents: seq<(Cols, nat)>, codec: Blocks.Codec)
    requires Sorted(es) && Distinct(cols) && (forall c :: c in cols ==> c in local) && Blocks.RoundTrips(codec)
    requires Contains(Visible(es, q.begin, q.until), contents, codec)
    requires forall i :: 0 <= i < |contents| ==> ReadsBlock(read, Visible(es, q.begin, q.until)[i].1, local, codec)
    requires j < |cols| && Follow(es, q, read, cols, local, budget, n).next.None?
    ensures forall p :: p in Follow(es, q, read, cols, local, budget, n).pages ==> |p.columns| == |cols|
    ensures PagedCells(Follow(es, q, read, cols, local, budget, n).pages, j) == ShownIn(contents, local, cols[j])
  {
    hide Visible, Follow, Holds, ReadsBlock, Blocks.RoundTrips, ShownIn, Slice, Cells, Frames, PagedCells;
    PagesRefineScan(es, q, read, cols, local, budget, n, j);
    ScanShows(read, Visible(es, q.begin, q.until), contents, local, codec, cols[j]);
  }

  lemma {:induction false} FollowKinds<V(!new)>(es: seq<Entry<V>>, q: Query, read: Reader<V>, cols: seq<Name>,
      schema: map<Name, Type>, budget: int, n: nat, j: nat)
    requires (forall c :: c in cols ==> c in schema) && j < |cols|
    ensures forall p :: p in Follow(es, q, read, cols, schema, budget, n).pages ==>
      |p.columns| == |cols| && p.columns[j].kind == schema[cols[j]]
    decreases n
  {
    hide Scan, Visible, PageStep;
    if n > 0 {
      var p := PageOf(es, q, read, cols, schema, budget);
      if p.next.Some? { FollowKinds(es, p.next.value, read, cols, schema, budget, n - 1, j); }
    }
  }

  /** The same for a table's requests: read for the requested columns with the table's types, the joined pages show,
      under each requested name, the blocks in range as that table types them. */
  lemma TableShowsBlocks(es: seq<Entry<Blocks.Stored>>, q: Query, read: Schema -> Reader<Blocks.Stored>,
      cols: seq<Name>, schema: Schema, local: Schema, budget: int, n: nat, j: nat, contents: seq<(Cols, nat)>,
      codec: Blocks.Codec)
    requires Sorted(es) && Distinct(cols) && Blocks.RoundTrips(codec) && j < |cols|
    requires forall c :: c in local <==> c in cols
    requires forall c :: c in cols ==> c in schema && local[c] == schema[c]
    requires Contains(Visible(es, q.begin, q.until), contents, codec)
    requires forall i :: 0 <= i < |contents| ==>
      ReadsBlock(read(local), Visible(es, q.begin, q.until)[i].1, local, codec)
    requires Follow(es, q, read(local), cols, local, budget, n).next.None?
    ensures var pages := Follow(es, q, read(local), cols, local, budget, n).pages;
      && (forall p :: p in pages ==> |p.columns| == |cols| && p.columns[j].kind == schema[cols[j]])
      && PagedCells(pages, j) == ShownIn(contents, local, cols[j])
  {
    hide Visible, Follow, ReadsBlock, Blocks.RoundTrips, ShownIn, PagedCells, Contains;
    FollowKinds(es, q, read(local), cols, local, budget, n, j);
    ContainsLength(Visible(es, q.begin, q.until), contents, codec);
    PagesShowBlocks(es, q, read(local), cols, local, budget, n, j, contents, codec);
  }

  lemma ContainsLength(items: seq<(Bytes, Blocks.Stored)>, contents: seq<(Cols, nat)>, codec: Blocks.Codec)
    requires Contains(items, contents, codec)
    ensures |items| == |contents|
  {
  }
}

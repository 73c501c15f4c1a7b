/** Encoded blocks (block.go): columns laid out in one buffer with offset metadata, and read back under another
    schema. */
module Blocks {
  import opened ByteStrings
  import opened Orders
  import opened Varints
  import opened ColumnData
  import opened ColumnSets
  import opened Schemas

  /** The column codec (kelindar/binary under snappy): only that it round-trips is known of it. */
  datatype Codec = Codec(enc: Column -> Bytes, dec: (Type, Bytes) -> Option<Column>)

  ghost predicate RoundTrips(codec: Codec) {
    forall c: Column :: c.kind != Unsupported ==> codec.dec(c.kind, codec.enc(c)) == Some(c)
  }

  /** A block: nine bytes of metadata per column, the columns' data, and the summed Size() of the columns. */
  datatype Stored = Stored(meta: map<Name, Bytes>, data: Bytes, size: nat)

  function TypeByte(t: Type): Byte {
    match t
    case Unsupported => 0
    case Int32Type => 1
    case Int64Type => 2
    case Float64Type => 3
    case StringType => 4
    case BoolType => 5
    case TimestampType => 6
    case JsonType => 7
  }

  function TypeOf(b: Byte): Type {
    if b == 1 then Int32Type else if b == 2 then Int64Type else if b == 3 then Float64Type
    else if b == 4 then StringType else if b == 5 then BoolType else if b == 6 then TimestampType
    else if b == 7 then JsonType else Unsupported
  }

  /** writeMeta: offset, size, kind */
  function Meta(offset: Uint32, size: Uint32, kind: Type): (m: Bytes)
    ensures |m| == 9
  {
    BigEndian(offset, 4) + BigEndian(size, 4) + [TypeByte(kind)]
  }

  lemma MetaRoundTrip(offset: Uint32, size: Uint32, kind: Type)
    ensures var m := Meta(offset, size, kind);
      FromBigEndian(m[..4]) == offset && FromBigEndian(m[4..8]) == size && TypeOf(m[8]) == kind
  {
    hide BigEndian, FromBigEndian;
    var m := Meta(offset, size, kind);
    assert m[..4] == BigEndian(offset, 4) && m[4..8] == BigEndian(size, 4);
    assert offset < Pow256(4) && size < Pow256(4) by { Pow256Values(); }
    BigEndianRoundTrip(offset, 4);
    BigEndianRoundTrip(size, 4);
  }

  /** Offset and size come first, most significant byte first; the types are numbered as typeof.go lists them. */
  lemma MetaExamples()
    ensures Meta(1, 258, StringType) == [0, 0, 0, 1, 0, 0, 1, 2, 4]
    ensures Meta(0, 0, Int32Type)[8] == 1 && Meta(0, 0, Int64Type)[8] == 2 && Meta(0, 0, Float64Type)[8] == 3
    ensures Meta(0, 0, BoolType)[8] == 5 && Meta(0, 0, TimestampType)[8] == 6 && Meta(0, 0, JsonType)[8] == 7
  {
    assert BigEndian(1, 4) == [0, 0, 0, 1];
    assert BigEndian(258, 4) == [0, 0, 1, 2];
  }

  // ---- layout ----

  function EncodingOf(cols: Cols, codec: Codec): Name -> Bytes {
    c => if c in cols then codec.enc(cols[c]) else []
  }

  function OffsetAt(order: seq<Name>, cols: Cols, codec: Codec, i: nat): nat
    requires i <= |order|
  {
    |Concat(order[..i], EncodingOf(cols, codec))|
  }

  ghost predicate Described(meta: map<Name, Bytes>, cols: Cols, codec: Codec, order: seq<Name>) {
    forall i :: 0 <= i < |order| ==>
      && order[i] in cols && order[i] in meta
      && OffsetAt(order, cols, codec, i) < TWO_32 && |codec.enc(cols[order[i]])| < TWO_32
      && meta[order[i]] == Meta(OffsetAt(order, cols, codec, i), |codec.enc(cols[order[i]])|, cols[order[i]].kind)
  }

  /** The data is the encoded columns end to end in `order`, each described where it lies. */
  ghost predicate Tiles(b: Stored, cols: Cols, codec: Codec, order: seq<Name>) {
    && Enumerates(order, cols.Keys)
    && b.data == Concat(order, EncodingOf(cols, codec)) && |b.data| < TWO_32
    && b.meta.Keys == cols.Keys && Described(b.meta, cols, codec, order)
  }

  ghost predicate Written(b: Stored, cols: Cols, codec: Codec) { exists order :: Tiles(b, cols, codec, order) }

  /** Where the i-th part of a concatenation lies. */
  lemma ConcatSplit(order: seq<Name>, f: Name -> Bytes, i: nat)
    requires i < |order|
    ensures var from := |Concat(order[..i], f)|;
      && from + |f(order[i])| == |Concat(order[..i + 1], f)| <= |Concat(order, f)|
      && Concat(order, f)[from..from + |f(order[i])|] == f(order[i])
  {
    hide Concat;
    var before, x, after := order[..i], [order[i]], order[i + 1..];
    ConcatOne(order[i], f);
    ConcatAppend(before, x, f);
    ConcatAppend(before + x, after, f);
    assert before + x == order[..i + 1] && before + x + after == order;
  }

  /** The sum of all encoded columns. */
  ghost function EncodedSize(cols: Cols, codec: Codec): nat { SetSum(cols.Keys, EncodedSizes(cols, codec)) }

  function EncodedSizes(cols: Cols, codec: Codec): Name -> nat {
    c => if c in cols then |codec.enc(cols[c])| else 0
  }

  /** uint32 addition */
  function Add32(a: Uint32, b: Uint32): (r: Uint32)
    ensures a + b < TWO_32 ==> r == a + b
  {
    (a + b) % TWO_32
  }

  /** writeColumns, in any map order. */
  method WriteColumns(cols: Cols, codec: Codec) returns (b: Stored)
    requires EncodedSize(cols, codec) < TWO_32
    ensures Written(b, cols, codec) && |b.data| == EncodedSize(cols, codec) && b.size == SetSize(cols)
  {
    hide *;
    var offset: Uint32 := 0;
    var rest := cols.Keys;
    ghost var order: seq<Name> := [];
    b := Stored(map[], [], 0);
    LaidStart(cols, codec);
    while rest != {}
      invariant rest <= cols.Keys && offset == |b.data| && Laid(b, cols, codec, order, rest)
      decreases |rest|
    {
      var name :| name in rest;
      var column := cols[name];
      LaidNext(b, cols, codec, order, rest, name);
      var p := codec.enc(column);
      b := Stored(b.meta[name := Meta(offset, |p|, column.kind)], b.data + p, b.size + ColumnSize(column));
      offset := Add32(offset, |p|);
      order, rest := order + [name], rest - {name};
    }
    LaidEnd(b, cols, codec, order);
  }

  /** The block half-way through writeColumns: `order` has been written, `rest` is to come. */
  ghost predicate Laid(b: Stored, cols: Cols, codec: Codec, order: seq<Name>, rest: set<Name>) {
    && rest <= cols.Keys && multiset(order) + multiset(rest) == multiset(cols.Keys)
    && b.data == Concat(order, EncodingOf(cols, codec))
    && |b.data| + SetSum(rest, EncodedSizes(cols, codec)) == EncodedSize(cols, codec)
    && b.size + SetSum(rest, SizeIn(cols)) == SetSize(cols)
    && b.meta.Keys == cols.Keys - rest
    && Described(b.meta, cols, codec, order)
  }

  lemma LaidStart(cols: Cols, codec: Codec)
    ensures Laid(Stored(map[], [], 0), cols, codec, [], cols.Keys)
  {
  }

  lemma LaidNext(b: Stored, cols: Cols, codec: Codec, order: seq<Name>, rest: set<Name>, c: Name)
    requires Laid(b, cols, codec, order, rest) && c in rest && EncodedSize(cols, codec) < TWO_32
    ensures var p := codec.enc(cols[c]);
      && |b.data| + |p| < TWO_32
      && Laid(Stored(b.meta[c := Meta(|b.data|, |p|, cols[c].kind)], b.data + p, b.size + ColumnSize(cols[c])),
              cols, codec, order + [c], rest - {c})
  {
    hide SetSum, Meta, Concat, Described, SetSize, ColumnSize;
    SetSumRemove(rest, c, EncodedSizes(cols, codec));
    SetSumRemove(rest, c, SizeIn(cols));
    assert multiset(rest - {c}) == multiset(rest) - multiset{c};
    assert c !in order by { NotVisited(order, rest, cols.Keys, c); }
    DescribedNext(b.meta, cols, codec, order, c);
  }

  lemma NotVisited(order: seq<Name>, rest: set<Name>, s: set<Name>, c: Name)
    requires multiset(order) + multiset(rest) == multiset(s) && c in rest
    ensures c !in order
  {
    assert multiset(s)[c] == multiset(order)[c] + multiset(rest)[c];
    assert multiset(rest)[c] == 1 && multiset(s)[c] <= 1;
    assert c in order <==> c in multiset(order);
  }

  lemma AllVisited(order: seq<Name>, s: set<Name>)
    requires multiset(order) + multiset({}) == multiset(s)
    ensures Enumerates(order, s)
  {
  }

  lemma LaidEnd(b: Stored, cols: Cols, codec: Codec, order: seq<Name>)
    requires Laid(b, cols, codec, order, {}) && EncodedSize(cols, codec) < TWO_32
    ensures Written(b, cols, codec) && |b.data| == EncodedSize(cols, codec) && b.size == SetSize(cols)
  {
    hide Concat, Described, SetSize, SetSum, EncodingOf, EncodedSizes, SizeIn, Enumerates;
    EmptySum(EncodedSizes(cols, codec));
    EmptySum(SizeIn(cols));
    AllVisited(order, cols.Keys);
    assert Tiles(b, cols, codec, order);
  }

  /** One column of the metadata while the next is written. */
  lemma DescribedStill(meta: map<Name, Bytes>, cols: Cols, codec: Codec, order: seq<Name>, c: Name, m: Bytes, i: nat)
    requires Described(meta, cols, codec, order) && c !in order && i < |order|
    ensures var order' := order + [c];
      && order'[i] in cols && order'[i] in meta && meta[c := m][order'[i]] == meta[order[i]]
      && OffsetAt(order', cols, codec, i) == OffsetAt(order, cols, codec, i)
  {
    hide Meta, Concat;
    assert (order + [c])[..i] == order[..i];
  }

  lemma DescribedNext(meta: map<Name, Bytes>, cols: Cols, codec: Codec, order: seq<Name>, c: Name)
    requires Described(meta, cols, codec, order) && c in cols && c !in order
    requires |Concat(order, EncodingOf(cols, codec))| + |codec.enc(cols[c])| < TWO_32
    ensures var offset := |Concat(order, EncodingOf(cols, codec))|;
      Described(meta[c := Meta(offset, |codec.enc(cols[c])|, cols[c].kind)], cols, codec, order + [c])
    ensures Concat(order + [c], EncodingOf(cols, codec)) == Concat(order, EncodingOf(cols, codec)) + codec.enc(cols[c])
  {
    hide Meta, Concat;
    var f := EncodingOf(cols, codec);
    var order' := order + [c];
    ConcatAppend(order, [c], f);
    ConcatOne(c, f);
    assert order'[..|order|] == order;
    var m := Meta(|Concat(order, f)|, |codec.enc(cols[c])|, cols[c].kind);
    forall i | 0 <= i < |order'|
      ensures && order'[i] in cols && order'[i] in meta[c := m]
              && OffsetAt(order', cols, codec, i) < TWO_32 && |codec.enc(cols[order'[i]])| < TWO_32
              && meta[c := m][order'[i]]
                 == Meta(OffsetAt(order', cols, codec, i), |codec.enc(cols[order'[i]])|, cols[order'[i]].kind)
    {
      if i < |order| { DescribedStill(meta, cols, codec, order, c, m, i); }
    }
  }

  // ---- Schema and Select ----

  function SchemaOf(b: Stored): Schema {
    map c | c in b.meta && |b.meta[c]| == 9 :: TypeOf(b.meta[c][8])
  }

  /** Reading one column through its metadata; None when it is missing, out of bounds or undecodable. */
  function ColumnAt(b: Stored, c: Name, codec: Codec): Option<Column> {
    if c !in b.meta || |b.meta[c]| != 9 then None
    else
      var m := b.meta[c];
      var offset, size := FromBigEndian(m[..4]), FromBigEndian(m[4..8]);
      if offset + size > |b.data| then None
      else codec.dec(TypeOf(m[8]), b.data[offset..offset + size])
  }

  /** Select: all the columns asked for, or nothing. */
  function Select(b: Stored, names: set<Name>, codec: Codec): Option<Cols> {
    if forall c :: c in names ==> ColumnAt(b, c, codec).Some?
    then Some(map c | c in names :: ColumnAt(b, c, codec).value) else None
  }

  predicate Supported(cols: Cols) { forall c :: c in cols ==> cols[c].kind != Unsupported }

  lemma ColumnAsWritten(b: Stored, cols: Cols, codec: Codec, c: Name)
    requires Written(b, cols, codec) && RoundTrips(codec) && Supported(cols)
    ensures ColumnAt(b, c, codec) == if c in cols then Some(cols[c]) else None
    ensures c in SchemaOf(b) <==> c in cols
    ensures c in cols ==> SchemaOf(b)[c] == cols[c].kind
  {
    hide Meta, FromBigEndian, TypeOf, Concat;
    if c in cols {
      var order :| Tiles(b, cols, codec, order);
      EnumeratesMembers(order, cols.Keys);
      var i :| 0 <= i < |order| && order[i] == c;
      ConcatSplit(order, EncodingOf(cols, codec), i);
      MetaRoundTrip(OffsetAt(order, cols, codec, i), |codec.enc(cols[c])|, cols[c].kind);
    }
  }

  /** Select returns each column as written, and nothing when one is missing. */
  lemma SelectAsWritten(b: Stored, cols: Cols, codec: Codec, names: set<Name>)
    requires Written(b, cols, codec) && RoundTrips(codec) && Supported(cols)
    ensures Select(b, names, codec)
         == if names <= cols.Keys then Some(map c | c in names && c in cols :: cols[c]) else None
  {
    hide Written, ColumnAt, RoundTrips;
    forall c ensures ColumnAt(b, c, codec) == if c in cols then Some(cols[c]) else None {
      ColumnAsWritten(b, cols, codec, c);
    }
    if names <= cols.Keys {
      assert (map c | c in names :: ColumnAt(b, c, codec).value) == map c | c in names && c in cols :: cols[c];
    } else {
      var c :| c in names && c !in cols;
      assert ColumnAt(b, c, codec).None?;
    }
  }

  function KindsOf(cols: Cols): Schema { map c | c in cols :: cols[c].kind }

  lemma SchemaAsWritten(b: Stored, cols: Cols, codec: Codec)
    requires Written(b, cols, codec) && RoundTrips(codec) && Supported(cols)
    ensures SchemaOf(b) == KindsOf(cols)
  {
    hide Written, SchemaOf, RoundTrips;
    forall c ensures (c in SchemaOf(b) <==> c in cols) && (c in cols ==> SchemaOf(b)[c] == cols[c].kind) {
      ColumnAsWritten(b, cols, codec, c);
    }
  }

  // ---- Read ----

  const MAX_NULL_COUNT := 25000

  datatype ReadResult = Columns(cols: Cols) | Failed | Panics

  /** The loop over the misses: a null column for each. NullColumn panics past its limit and for an unknown type. */
  ghost function Backfilled(cols: Cols, misses: Schema, count: nat): ReadResult {
    if count > MAX_NULL_COUNT || (exists c :: c in misses && misses[c] == Unsupported) then Panics
    else Columns(cols + map c | c in misses :: Column(misses[c], Nulls(count)))
  }

  /** What Read may return: select what the block has, and fill the misses with null columns as long as any column of
      the selection. */
  ghost predicate MayRead(b: Stored, desired: Schema, codec: Codec, r: ReadResult) {
    var misses := Misses(SchemaOf(b), desired);
    var common := Except(SchemaOf(b), misses);
    if misses == map[] then
      r == match Select(b, desired.Keys, codec) case None => Failed case Some(cols) => Columns(cols)
    else if common == map[] then r == Columns(map[])
    else
      match Select(b, common.Keys, codec)
      case None => r == Failed
      case Some(cols) => exists any :: any in cols && r == Backfilled(cols, misses, |cols[any].cells|)
  }

  /** The columns of the block that survive, and every desired one: as stored when name and type match, null
      otherwise. */
  ghost function View(cols: Cols, n: nat, desired: Schema): Cols {
    var misses := Misses(KindsOf(cols), desired);
    (map c | c in cols && c !in misses :: cols[c]) + (map c | c in misses :: Column(misses[c], Nulls(n)))
  }

  /** Reading a block of the given columns, all `n` long. */
  ghost function Outcome(cols: Cols, n: nat, desired: Schema): ReadResult {
    var misses := Misses(KindsOf(cols), desired);
    if misses == map[] then Columns(map c | c in desired && c in cols :: cols[c])
    else if Except(KindsOf(cols), misses) == map[] then Columns(map[])
    else if n > MAX_NULL_COUNT || (exists c :: c in misses && misses[c] == Unsupported) then Panics
    else Columns(View(cols, n, desired))
  }

  /** Read of any desired schema, of a block with `n` rows, whichever column Any() picks: the matching columns intact,
      the others all null, every one `n` long; nothing when no column of the block survives; a panic past the null
      column limit. */
  lemma ReadExact(b: Stored, cols: Cols, n: nat, desired: Schema, codec: Codec, r: ReadResult)
    requires Written(b, cols, codec) && RoundTrips(codec) && Supported(cols) && Even(cols, n)
    ensures MayRead(b, desired, codec, r) <==> r == Outcome(cols, n, desired)
  {
    hide Written, RoundTrips, SchemaOf, Select;
    SchemaAsWritten(b, cols, codec);
    var misses := Misses(KindsOf(cols), desired);
    var common := Except(KindsOf(cols), misses);
    if misses == map[] {
      forall c | c in desired ensures c in cols { assert c !in misses; }
      SelectAsWritten(b, cols, codec, desired.Keys);
    } else if common != map[] {
      SelectAsWritten(b, cols, codec, common.Keys);
      CommonColumns(cols, misses);
      var some :| some in common;
      var picked := map c | c in common.Keys && c in cols :: cols[c];
      assert some in picked && forall c :: c in picked ==> |picked[c].cells| == n;
    }
  }

  /** When reading a block panics: it has a column to keep and lacks a desired one, and has more than 25000 rows or the
      missing column has no supported type. */
  lemma ReadPanicsIff(b: Stored, cols: Cols, n: nat, desired: Schema, codec: Codec)
    requires Written(b, cols, codec) && RoundTrips(codec) && Supported(cols) && Even(cols, n)
    ensures MayRead(b, desired, codec, Panics) <==>
      && (exists c :: c in desired && (c !in cols || cols[c].kind != desired[c]))
      && (exists c :: c in cols && (c in desired ==> cols[c].kind == desired[c]))
      && (n > 25000 || exists c ::
           c in desired && (c !in cols || cols[c].kind != desired[c]) && desired[c] == Unsupported)
  {
    hide Written, RoundTrips, Supported, Even, MayRead, View;
    ReadExact(b, cols, n, desired, codec, Panics);
    var misses := Misses(KindsOf(cols), desired);
    var common := Except(KindsOf(cols), misses);
    assert forall c :: c in misses <==> c in desired && (c !in cols || cols[c].kind != desired[c]);
    assert forall c :: c in common <==> c in cols && (c in desired ==> cols[c].kind == desired[c]);
    if misses != map[] { var c :| c in misses; }
    if common != map[] { var c :| c in common; }
  }

  lemma CommonColumns(cols: Cols, misses: Schema)
    ensures var common := Except(KindsOf(cols), misses);
      (map c | c in common.Keys && c in cols :: cols[c]) == map c | c in cols && c !in misses :: cols[c]
  {
  }

  /** Every desired column is there with its desired type and the block's row count. */
  lemma ViewIsComplete(cols: Cols, n: nat, desired: Schema)
    requires Even(cols, n)
    ensures Even(View(cols, n, desired), n)
    ensures forall c :: c in desired ==> c in View(cols, n, desired) && View(cols, n, desired)[c].kind == desired[c]
    ensures forall c :: c in desired && c in cols && cols[c].kind == desired[c] ==> View(cols, n, desired)[c] == cols[c]
    ensures forall c :: c in desired && !(c in cols && cols[c].kind == desired[c]) ==>
      View(cols, n, desired)[c] == Column(desired[c], Nulls(n))
  {
  }

  /** So a frame is empty, or has every desired column with its type, all of the block's length. */
  lemma ReadIsComplete(b: Stored, cols: Cols, n: nat, desired: Schema, codec: Codec, r: ReadResult)
    requires Written(b, cols, codec) && RoundTrips(codec) && Supported(cols) && Even(cols, n)
    requires MayRead(b, desired, codec, r)
    ensures r.Columns? && r.cols != map[] ==>
      Even(r.cols, n) && forall c :: c in desired ==> c in r.cols && r.cols[c].kind == desired[c]
  {
    hide Written, RoundTrips, MayRead, View, Supported;
    ReadExact(b, cols, n, desired, codec, r);
    ViewIsComplete(cols, n, desired);
    var misses := Misses(KindsOf(cols), desired);
    if misses == map[] {
      forall c | c in desired ensures c in cols && cols[c].kind == desired[c] { assert c !in misses; }
    }
  }

  /** The loop of Select. */
  method SelectColumns(b: Stored, names: set<Name>, codec: Codec) returns (r: Option<Cols>)
    ensures r == Select(b, names, codec)
  {
    hide ColumnAt;
    var response: Cols := map[];
    var rest := names;
    while rest != {}
      invariant rest <= names && response.Keys == names - rest
      invariant forall c :: c in names - rest ==> ColumnAt(b, c, codec) == Some(response[c])
      decreases |rest|
    {
      var c :| c in rest;
      var v := ColumnAt(b, c, codec);
      if v.None? { return None; }
      response := response[c := v.value];
      rest := rest - {c};
    }
    assert response == map c | c in names :: ColumnAt(b, c, codec).value;
    return Some(response);
  }

  /** Read, on any block: Any() picks some column of the selection. */
  method ReadBlock(b: Stored, desired: Schema, codec: Codec) returns (r: ReadResult)
    ensures MayRead(b, desired, codec, r)
  {
    hide SchemaOf, ColumnAt;
    var schema := SchemaOf(b);
    var misses, ok := Compare(schema, desired);
    SplitByMisses(schema, desired);
    if ok {
      var s := SelectColumns(b, desired.Keys, codec);
      return match s case None => Failed case Some(x) => Columns(x);
    }
    var common := ExceptOf(schema, misses);
    if common == map[] { return Columns(map[]); }
    var s := SelectColumns(b, common.Keys, codec);
    if s.None? { return Failed; }
    var result := s.value;
    var some :| some in common;
    assert some in result;
    var any :| any in result;
    r := Backfill(result, misses, |result[any].cells|);
  }

  /** The result half-way: `rest` are the misses still to come. */
  ghost function Backfilling(cols: Cols, misses: Schema, rest: set<Name>, count: nat): Cols {
    cols + map c | c in misses && c !in rest :: Column(misses[c], Nulls(count))
  }

  lemma BackfillNext(cols: Cols, misses: Schema, rest: set<Name>, count: nat, c: Name)
    requires c in misses
    ensures Backfilling(cols, misses, rest, count)[c := Column(misses[c], Nulls(count))]
         == Backfilling(cols, misses, rest - {c}, count)
    ensures Backfilling(cols, misses, misses.Keys, count) == cols
  {
  }

  /** The loop over the misses. */
  method Backfill(cols: Cols, misses: Schema, count: nat) returns (r: ReadResult)
    requires misses != map[]
    ensures r == Backfilled(cols, misses, count)
  {
    hide Backfilling;
    var result, rest := cols, misses.Keys;
    var some :| some in misses;
    BackfillNext(cols, misses, rest, count, some);
    while rest != {}
      invariant rest <= misses.Keys && result == Backfilling(cols, misses, rest, count)
      invariant forall c :: c in misses.Keys - rest ==> misses[c] != Unsupported
      invariant some !in rest ==> count <= MAX_NULL_COUNT
      decreases |rest|
    {
      var c :| c in rest;
      if count > MAX_NULL_COUNT || misses[c] == Unsupported { return Panics; }
      BackfillNext(cols, misses, rest, count, c);
      result := result[c := Column(misses[c], Nulls(count))];
      rest := rest - {c};
    }
    BackfillEnds(cols, misses, count);
    r := Columns(result);
  }

  lemma BackfillEnds(cols: Cols, misses: Schema, count: nat)
    ensures Backfilling(cols, misses, {}, count) == cols + map c | c in misses :: Column(misses[c], Nulls(count))
  {
  }
}

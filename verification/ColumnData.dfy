/** Columns of nullable values (presto/columns.go): the abstract column, and the string column as three arrays. */
module ColumnData {
  import opened ByteStrings
  import opened Varints

  datatype Type = Unsupported | Int32Type | Int64Type | Float64Type | StringType | BoolType | TimestampType | JsonType

  datatype Datum =
    | Int(value: int)
    | Double(bits: Uint64)
    | Text(bytes: Bytes)
    | Flag(flag: bool)

  type Name = Bytes
  type Cell = Option<Datum>

  /** What a column holds: a kind and, row by row, a value or null. */
  datatype Column = Column(kind: Type, cells: seq<Cell>)

  /** The size each kind's Append reports for one value. */
  function CellSize(kind: Type, c: Cell): nat {
    match kind
    case Int32Type => 6
    case BoolType => 4
    case StringType => 6 + TextLength(c)
    case JsonType => 6 + TextLength(c)
    case _ => 10
  }

  /** Two bytes for the null flag, and the width of the value; a string has a size of four bytes and its own bytes. */
  lemma CellSizes(c: Cell)
    ensures CellSize(Int32Type, c) == 2 + 4 && CellSize(BoolType, c) == 2 + 2
    ensures CellSize(Int64Type, c) == CellSize(Float64Type, c) == CellSize(TimestampType, c) == 2 + 8
    ensures c.Some? && c.value.Text? ==>
      CellSize(StringType, c) == CellSize(JsonType, c) == 2 + 4 + |c.value.bytes|
    ensures c.None? ==> CellSize(StringType, c) == CellSize(JsonType, c) == 2 + 4
  {
  }

  function TextLength(c: Cell): nat {
    if c.Some? && c.value.Text? then |c.value.bytes| else 0
  }

  function CellsSize(kind: Type, cells: seq<Cell>): nat {
    if cells == [] then 0 else CellsSize(kind, cells[..|cells| - 1]) + CellSize(kind, cells[|cells| - 1])
  }

  function ColumnSize(c: Column): nat { CellsSize(c.kind, c.cells) }

  lemma {:induction false} CellsSizeConcat(kind: Type, a: seq<Cell>, b: seq<Cell>)
    ensures CellsSize(kind, a + b) == CellsSize(kind, a) + CellsSize(kind, b)
  {
    if b == [] {
      assert a + b == a;
    } else {
      var n := |b| - 1;
      assert (a + b)[..|a + b| - 1] == a + b[..n];
      CellsSizeConcat(kind, a, b[..n]);
    }
  }

  // ---- the string column ----

  datatype Packed = Packed(nulls: seq<bool>, sizes: seq<int>, bytes: Bytes)

  function Push(p: Packed, v: Option<Bytes>): Packed {
    match v
    case None => Packed(p.nulls + [true], p.sizes + [0], p.bytes)
    case Some(b) => Packed(p.nulls + [false], p.sizes + [|b|], p.bytes + b)
  }

  function Join(p: Packed, q: Packed): Packed {
    Packed(p.nulls + q.nulls, p.sizes + q.sizes, p.bytes + q.bytes)
  }

  /** The three arrays that stand for a list of optional strings. */
  function Pack(vs: seq<Option<Bytes>>): (p: Packed)
    ensures |p.nulls| == |p.sizes| == |vs|
  {
    if vs == [] then Packed([], [], []) else Push(Pack(vs[..|vs| - 1]), vs[|vs| - 1])
  }

  function Total(sizes: seq<int>): int {
    if sizes == [] then 0 else Total(sizes[..|sizes| - 1]) + sizes[|sizes| - 1]
  }

  /** The layout presto.thrift asks for: the sizes of all rows add up to the byte count, and a null has size 0. */
  predicate Layout(p: Packed) {
    && |p.nulls| == |p.sizes| && Total(p.sizes) == |p.bytes|
    && forall i :: 0 <= i < |p.sizes| ==> 0 <= p.sizes[i] && (p.nulls[i] ==> p.sizes[i] == 0)
  }

  lemma {:induction false} PackKeepsLayout(vs: seq<Option<Bytes>>)
    ensures Layout(Pack(vs))
  {
    if vs != [] {
      var p, q := Pack(vs[..|vs| - 1]), Pack(vs);
      PackKeepsLayout(vs[..|vs| - 1]);
      assert q.sizes[..|q.sizes| - 1] == p.sizes;
    }
  }

  /** Laying two columns end to end lays their lists end to end. */
  lemma {:induction false} JoinPack(a: seq<Option<Bytes>>, b: seq<Option<Bytes>>)
    ensures Join(Pack(a), Pack(b)) == Pack(a + b)
  {
    if b == [] {
      assert a + b == a;
      JoinEmpty(Pack(a));
    } else {
      var k := |b| - 1;
      JoinPack(a, b[..k]);
      assert (a + b)[..|a + b| - 1] == a + b[..k];
      JoinPush(Pack(a), Pack(b[..k]), b[k]);
    }
  }

  lemma JoinEmpty(p: Packed)
    ensures Join(p, Packed([], [], [])) == p
  {
    var q := Join(p, Packed([], [], []));
    assert q.nulls == p.nulls && q.sizes == p.sizes && q.bytes == p.bytes;
  }

  lemma JoinPush(p: Packed, q: Packed, v: Option<Bytes>)
    ensures Join(p, Push(q, v)) == Push(Join(p, q), v)
  {
    var a, b := Join(p, Push(q, v)), Push(Join(p, q), v);
    assert a.nulls == b.nulls && a.sizes == b.sizes && a.bytes == b.bytes;
  }

  lemma PackSnoc(vs: seq<Option<Bytes>>, v: Option<Bytes>)
    ensures Pack(vs + [v]) == Push(Pack(vs), v)
  {
    assert (vs + [v])[..|vs|] == vs;
  }

  lemma {:induction false} PackPrefix(vs: seq<Option<Bytes>>, i: nat)
    requires i <= |vs|
    ensures Pack(vs[..i]).nulls == Pack(vs).nulls[..i]
    ensures Pack(vs[..i]).sizes == Pack(vs).sizes[..i]
    ensures Pack(vs[..i]).bytes <= Pack(vs).bytes
    decreases |vs|
  {
    if i == |vs| {
      assert vs[..i] == vs;
    } else {
      var init := vs[..|vs| - 1];
      PackPrefix(init, i);
      assert init[..i] == vs[..i];
      PackSnoc(init, vs[|vs| - 1]);
      assert vs == init + [vs[|vs| - 1]];
    }
  }

  /** Where the i-th string lies: its flag, its size, and its bytes after those of all rows before it. */
  lemma PackAt(vs: seq<Option<Bytes>>, i: nat)
    requires i < |vs|
    ensures var p, from := Pack(vs), |Pack(vs[..i]).bytes|;
      && from == Total(p.sizes[..i])
      && p.nulls[i] == vs[i].None?
      && p.sizes[i] == (if vs[i].None? then 0 else |vs[i].value|)
      && from + p.sizes[i] == |Pack(vs[..i + 1]).bytes| <= |p.bytes|
      && (vs[i].Some? ==> vs[i].value == p.bytes[from..from + p.sizes[i]])
  {
    var q := Pack(vs[..i + 1]);
    assert vs[..i + 1] == vs[..i] + [vs[i]];
    PackSnoc(vs[..i], vs[i]);
    PackPrefix(vs, i);
    PackPrefix(vs, i + 1);
    PackKeepsLayout(vs[..i]);
    assert q.nulls[i] == Pack(vs).nulls[i] && q.sizes[i] == Pack(vs).sizes[i];
    if vs[i].Some? {
      var from := |Pack(vs[..i]).bytes|;
      assert q.bytes[from..] == vs[i].value;
      assert q.bytes[from..] == Pack(vs).bytes[from..|q.bytes|];
    }
  }

  /** Calling back on each row of [from, until) in turn, until the callback reports an error. */
  function Visit<S>(vs: seq<Option<Bytes>>, from: nat, until: int, f: (S, int, Option<Bytes>) -> (S, bool),
      s: S): (S, bool)
    decreases |vs| - from
  {
    if from >= until || from >= |vs| then (s, false)
    else
      var r := f(s, from, vs[from]);
      if r.1 then r else Visit(vs, from + 1, until, f, r.0)
  }

  /** A callback that never fails sees each row asked for that there is, in order and with its value. */
  lemma {:induction false} VisitSeesAll(vs: seq<Option<Bytes>>, from: nat, until: int, seen: seq<(int, Option<Bytes>)>)
    ensures var f := (s: seq<(int, Option<Bytes>)>, i: int, v: Option<Bytes>) => (s + [(i, v)], false);
      var end := if until < |vs| then until else |vs|;
      var (all, err) := Visit(vs, from, until, f, seen);
      && !err && seen <= all && |all| == |seen| + (if from < end then end - from else 0)
      && forall i :: from <= i < end ==> all[|seen| + i - from] == (i, vs[i])
    decreases |vs| - from
  {
    if from < until && from < |vs| { VisitSeesAll(vs, from + 1, until, seen + [(from, vs[from])]); }
  }

  /** One that fails is not called again. */
  lemma VisitStops<S>(vs: seq<Option<Bytes>>, from: nat, until: int, f: (S, int, Option<Bytes>) -> (S, bool), s: S)
    requires from < until && from < |vs|
    ensures var r := f(s, from, vs[from]);
      Visit(vs, from, until, f, s) == if r.1 then r else Visit(vs, from + 1, until, f, r.0)
  {
  }

  ghost function AllValues(blocks: seq<Varchar>): seq<Option<Bytes>>
    reads set b | b in blocks
  {
    if blocks == [] then [] else blocks[0].values + AllValues(blocks[1..])
  }

  function TextCells(vs: seq<Option<Bytes>>): (cells: seq<Cell>)
    ensures |cells| == |vs|
  {
    seq(|vs|, i requires 0 <= i < |vs| => if vs[i].None? then None else Some(Text(vs[i].value)))
  }

  /** Size() is the sum of what Append reports for each value. */
  lemma {:induction false} VarcharSize(vs: seq<Option<Bytes>>)
    ensures 6 * |vs| + |Pack(vs).bytes| == CellsSize(StringType, TextCells(vs))
  {
    if vs != [] {
      var init := vs[..|vs| - 1];
      VarcharSize(init);
      assert TextCells(vs)[..|vs| - 1] == TextCells(init);
    }
  }

  /** PrestoThriftVarchar; PrestoThriftJson has the same arrays and the same code. */
  class Varchar {
    var nulls: seq<bool>
    var sizes: seq<int>
    var bytes: Bytes
    ghost var values: seq<Option<Bytes>>

    ghost predicate Valid()
      reads this
    {
      Packed(nulls, sizes, bytes) == Pack(values)
    }

    constructor ()
      ensures Valid() && values == []
    {
      nulls, sizes, bytes, values := [], [], [], [];
    }

    function Count(): nat
      reads this
    {
      |nulls|
    }

    function Size(): nat
      reads this
    {
      6 * Count() + |bytes|
    }

    method Append(v: Option<Bytes>) returns (n: nat)
      requires Valid() && (v.Some? ==> |v.value| < 0x8000_0000)
      modifies this
      ensures Valid() && values == old(values) + [v]
      ensures n == 6 + (if v.Some? then |v.value| else 0) && Size() == old(Size()) + n
    {
      PackSnoc(values, v);
      hide Pack;
      values := values + [v];
      if v.None? {
        nulls := nulls + [true];
        sizes := sizes + [0];
        return 6;
      }
      var length := |v.value|;
      nulls := nulls + [false];
      sizes := sizes + [ToInt32(length)];
      bytes := bytes + v.value;
      return 6 + length;
    }

    /** One turn of AppendBlock's loop. */
    method AppendOne(b: Varchar)
      requires Valid() && b != this && b.Valid()
      modifies this
      ensures Valid() && values == old(values) + b.values
    {
      hide Pack;
      JoinPack(values, b.values);
      nulls := nulls + b.nulls;
      sizes := sizes + b.sizes;
      bytes := bytes + b.bytes;
      values := values + b.values;
    }

    method AppendBlock(blocks: seq<Varchar>)
      requires Valid() && this !in blocks && forall b :: b in blocks ==> b.Valid()
      modifies this
      ensures Valid() && values == old(values) + old(AllValues(blocks))
    {
      hide Pack;
      ghost var before := values;
      assert blocks[0..] == blocks;
      for k := 0 to |blocks|
        invariant Valid()
        invariant values + AllValues(blocks[k..]) == before + AllValues(blocks)
      {
        assert blocks[k] in blocks && blocks[k..][1..] == blocks[k + 1..];
        ghost var mine, rest := values, AllValues(blocks[k + 1..]);
        AppendOne(blocks[k]);
        assert mine + (blocks[k].values + rest) == values + rest;
      }
      assert AllValues(blocks[|blocks|..]) == [];
    }

    /** The offset of a row, summed in an int32. */
    method Seek(index: nat) returns (offset: Int32)
      requires Valid() && |bytes| < 0x8000_0000 && index <= |values|
      ensures offset == |Pack(values[..index]).bytes|
    {
      offset := 0;
      assert values[..0] == [];
      hide Pack;
      for k := 0 to index
        invariant offset == |Pack(values[..k]).bytes|
      {
        PackAt(values, k);
        offset := ToInt32(offset + sizes[k]);
      }
    }

    method At(index: nat) returns (v: Option<Bytes>)
      requires Valid() && |bytes| < 0x8000_0000
      ensures v == if index < |values| then values[index] else None
    {
      hide Pack;
      if index >= |sizes| { return None; }
      PackAt(values, index);
      if nulls[index] { return None; }
      var offset := Seek(index);
      return Some(bytes[offset..offset + sizes[index]]);
    }

    method Last() returns (v: Option<Bytes>)
      requires Valid()
      ensures v == if values == [] then None else values[|values| - 1]
    {
      hide Pack;
      var offset := |nulls| - 1;
      if offset < 0 { return None; }
      PackAt(values, offset);
      assert values[..offset + 1] == values;
      if nulls[offset] { return None; }
      assert bytes[|bytes| - sizes[offset]..] == bytes[|bytes| - sizes[offset]..|bytes|];
      return Some(bytes[|bytes| - sizes[offset]..]);
    }

    /** Range: visits exactly (i, At(i)) for the rows asked for. */
    method Range<S>(from: nat, until: int, f: (S, int, Option<Bytes>) -> (S, bool), init: S) returns (s: S, err: bool)
      requires Valid() && |bytes| < 0x8000_0000 && from <= |sizes|
      ensures (s, err) == Visit(values, from, until, f, init)
    {
      hide Pack;
      var offset := Seek(from);
      s, err := init, false;
      var i := from;
      while i < until && i < |sizes|
        invariant from <= i <= |sizes| && offset == |Pack(values[..i]).bytes| && !err
        invariant Visit(values, i, until, f, s) == Visit(values, from, until, f, init)
        decreases |sizes| - i
      {
        PackAt(values, i);
        var size := sizes[i];
        if nulls[i] {
          var r := f(s, i, None);
          s, err := r.0, r.1;
        } else {
          var r := f(s, i, Some(bytes[offset..offset + size]));
          s, err := r.0, r.1;
          offset := ToInt32(offset + size);
        }
        if err { return; }
        i := i + 1;
      }
    }
  }

  // ---- the bigint column's minimum ----

  const MAX_INT64 := 0x7FFF_FFFF_FFFF_FFFF

  /** Bigint.Min */
  function Min(nulls: seq<bool>, longs: seq<Int64>): (Int64, bool)
    requires |nulls| == |longs|
  {
    if longs == [] then (0, false) else var m := Least(nulls, longs); (m, m != MAX_INT64)
  }

  function Least(nulls: seq<bool>, longs: seq<Int64>): Int64
    requires |nulls| == |longs|
  {
    if longs == [] then MAX_INT64
    else
      var k := |longs| - 1;
      var m := Least(nulls[..k], longs[..k]);
      if longs[k] < m && !nulls[k] then longs[k] else m
  }

  /** Its loop: the least non-null value; a column of nulls or of MaxInt64 alone has none. */
  method MinOf(nulls: seq<bool>, longs: seq<Int64>) returns (min: Int64, ok: bool)
    requires |nulls| == |longs|
    ensures (min, ok) == Min(nulls, longs)
    ensures ok <==> exists i :: 0 <= i < |longs| && !nulls[i] && longs[i] != MAX_INT64
    ensures ok ==> exists i :: 0 <= i < |longs| && !nulls[i] && longs[i] == min
    ensures ok ==> forall i :: 0 <= i < |longs| && !nulls[i] ==> min <= longs[i]
  {
    if |longs| == 0 { return 0, false; }
    min := MAX_INT64;
    for i := 0 to |longs|
      invariant min == Least(nulls[..i], longs[..i])
      invariant forall k :: 0 <= k < i && !nulls[k] ==> min <= longs[k]
      invariant min == MAX_INT64 || exists k :: 0 <= k < i && !nulls[k] && longs[k] == min
    {
      assert longs[..i + 1][..i] == longs[..i] && nulls[..i + 1][..i] == nulls[..i];
      if longs[i] < min && !nulls[i] { min := longs[i]; }
    }
    assert longs[..|longs|] == longs && nulls[..|nulls|] == nulls;
    ok := min != MAX_INT64;
  }
}

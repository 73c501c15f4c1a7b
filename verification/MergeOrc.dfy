/** ToOrc (merge/orc.go): the rows a group of blocks is written as. */
module MergeOrc {
  import opened ByteStrings
  import opened ColumnData
  import opened ColumnSets
  import opened Schemas
  import opened Blocks

  /** At of a timestamp column turns stored milliseconds into seconds, truncating toward zero. */
  function Shown(kind: Type, c: Cell): Cell {
    if kind == TimestampType && c.Some? && c.value.Int? then
      Some(Int(if c.value.value >= 0 then c.value.value / 1000 else -(-c.value.value / 1000)))
    else c
  }

  /** A null stays null, every other value stays itself, and milliseconds become the whole seconds in them. */
  lemma ShownIs(kind: Type, c: Cell)
    ensures Shown(kind, c).None? <==> c.None?
    ensures kind != TimestampType ==> Shown(kind, c) == c
    ensures kind == TimestampType && c.Some? && c.value.Int? ==>
      && Shown(kind, c).value.Int?
      && var ms, s := c.value.value, Shown(kind, c).value.value;
         && (ms >= 0 ==> 0 <= s && s * 1000 <= ms < s * 1000 + 1000)
         && (ms <= 0 ==> s <= 0 && s * 1000 - 1000 < ms <= s * 1000)
  {
  }

  function At(col: Column, i: nat): Cell { if i < |col.cells| then Shown(col.kind, col.cells[i]) else None }

  type OrcRow = seq<Cell>

  /** The block's columns under the group's schema: an empty column where the block has none of that name and type. */
  function Chosen(rows: Cols, schema: Schema): Cols {
    map c | c in schema :: if c in rows && rows[c].kind == schema[c] then rows[c] else Column(schema[c], [])
  }

  function RowAt(cols: Cols, names: seq<Name>, i: nat): OrcRow
    requires forall c :: c in names ==> c in cols
  {
    seq(|names|, j requires 0 <= j < |names| => At(cols[names[j]], i))
  }

  function RowsUpTo(cols: Cols, names: seq<Name>, n: nat): seq<OrcRow>
    requires forall c :: c in names ==> c in cols
  {
    seq(n, i requires 0 <= i < n => RowAt(cols, names, i))
  }

  /** What one block contributes; a block that cannot be selected is passed over. */
  ghost function BlockRows(b: Stored, schema: Schema, names: seq<Name>, codec: Codec): seq<OrcRow>
    requires names != [] && forall c :: c in names ==> c in schema
  {
    match Select(b, SchemaOf(b).Keys, codec)
    case None => []
    case Some(rows) =>
      var cols := FillNulls(Chosen(rows, schema));
      RowsUpTo(cols, names, |cols[names[0]].cells|)
  }

  ghost function Output(blocks: seq<Stored>, schema: Schema, names: seq<Name>, codec: Codec): seq<OrcRow>
    requires names != [] && forall c :: c in names ==> c in schema
  {
    if blocks == [] then []
    else Output(blocks[..|blocks| - 1], schema, names, codec) + BlockRows(blocks[|blocks| - 1], schema, names, codec)
  }

  datatype OrcResult = Rows(rows: seq<OrcRow>) | Panics | Failed

  /** ToOrc up to the writer: the rows it is handed, in order. `parses` tells whether the ORC library accepts the
      schema, `closes` whether the writer closes after those rows. An empty schema panics at the first readable block.
      */
  method ToOrc(blocks: seq<Stored>, schema: Schema, codec: Codec, parses: Schema -> bool, closes: seq<OrcRow> -> bool)
    returns (r: OrcResult, names: seq<Name>)
    ensures ListsColumns(names, schema)
    ensures !parses(schema) ==> r.Failed?
    ensures parses(schema) && schema != map[] ==>
      && names != []
      && var rows := Output(blocks, schema, names, codec);
         r == if closes(rows) then Rows(rows) else OrcResult.Failed
    ensures r.Rows? && schema != map[] && RoundTrips(codec) ==>
      forall stored :: Holding(blocks, stored, codec) ==> Merged(r.rows, Kept(stored, schema), schema, names)
    ensures parses(schema) && schema == map[] ==>
      if exists i :: 0 <= i < |blocks| && Select(blocks[i], SchemaOf(blocks[i]).Keys, codec).Some? then r.Panics?
      else r == if closes([]) then Rows([]) else OrcResult.Failed
  {
    hide Select, SchemaOf, FillNulls, Chosen, SortedNames, Holding, Merged, Kept, RoundTrips;
    names := Schemas.Columns(schema);
    if !parses(schema) { return OrcResult.Failed, names; }
    if schema == map[] {
      r := Rows([]);
      for i := 0 to |blocks|
        invariant r == Rows([])
        invariant forall k :: 0 <= k < i ==> Select(blocks[k], SchemaOf(blocks[k]).Keys, codec).None?
      {
        var rows := SelectColumns(blocks[i], SchemaOf(blocks[i]).Keys, codec);
        if rows.Some? { return OrcResult.Panics, names; }
      }
      if !closes([]) { r := OrcResult.Failed; }
      return;
    }
    var some :| some in schema;
    assert some in names;
    var out: seq<OrcRow> := [];
    for i := 0 to |blocks|
      invariant out == Output(blocks[..i], schema, names, codec)
    {
      assert blocks[..i + 1][..i] == blocks[..i];
      var rows := SelectColumns(blocks[i], SchemaOf(blocks[i]).Keys, codec);
      if rows.Some? {
        var set1 := new ColumnSet.Of(Chosen(rows.value, schema));
        assert set1.cols.Keys == schema.Keys by { ChosenKeys(rows.value, schema); }
        FillKeys(set1.cols);
        var _ := set1.Fill();
        var more := WriteRows(set1.cols, names);
        out := out + more;
      }
    }
    assert blocks[..|blocks|] == blocks;
    r := if closes(out) then Rows(out) else OrcResult.Failed;
    if RoundTrips(codec) {
      forall stored | Holding(blocks, stored, codec) ensures Merged(out, Kept(stored, schema), schema, names) {
        OutputIsMerged(blocks, stored, schema, names, codec);
      }
    }
  }

  /** The row loop. */
  method WriteRows(cols: Cols, names: seq<Name>) returns (out: seq<OrcRow>)
    requires names != [] && forall c :: c in names ==> c in cols
    ensures out == RowsUpTo(cols, names, |cols[names[0]].cells|)
  {
    out := [];
    for i := 0 to |cols[names[0]].cells|
      invariant out == RowsUpTo(cols, names, i)
    {
      var row: OrcRow := [];
      for j := 0 to |names|
        invariant row == RowAt(cols, names, i)[..j]
      {
        row := row + [At(cols[names[j]], i)];
      }
      assert row == RowAt(cols, names, i);
      assert RowsUpTo(cols, names, i + 1) == RowsUpTo(cols, names, i) + [RowAt(cols, names, i)];
      out := out + [row];
    }
  }

  lemma ChosenKeys(rows: Cols, schema: Schema) ensures Chosen(rows, schema).Keys == schema.Keys { }

  lemma FillKeys(cols: Cols) ensures FillNulls(cols).Keys == cols.Keys { }

  // ---- the merged output, from what the blocks were written of ----

  /** Row `i` of a block: its value under each schema column, null where the block lacks the column. */
  function Projection(cols: Cols, schema: Schema, names: seq<Name>, i: nat): OrcRow
    requires forall c :: c in names ==> c in schema
  {
    seq(|names|, j requires 0 <= j < |names| =>
      if names[j] in cols && i < |cols[names[j]].cells| then Shown(schema[names[j]], cols[names[j]].cells[i]) else None)
  }

  function ProjectedRows(cols: Cols, n: nat, schema: Schema, names: seq<Name>): seq<OrcRow>
    requires forall c :: c in names ==> c in schema
  {
    seq(n, i requires 0 <= i < n => Projection(cols, schema, names, i))
  }

  function Projected(contents: seq<(Cols, nat)>, schema: Schema, names: seq<Name>): seq<OrcRow>
    requires forall c :: c in names ==> c in schema
  {
    if contents == [] then []
    else
      var k := |contents| - 1;
      var (cols, n) := contents[k];
      Projected(contents[..k], schema, names) + ProjectedRows(cols, n, schema, names)
  }

  lemma ChosenMax(cols: Cols, n: nat, schema: Schema)
    requires Even(cols, n) && n == Max(cols) && Covers(schema, KindsOf(cols))
    ensures Max(Chosen(cols, schema)) == n
  {
    hide Max;
    var ch := Chosen(cols, schema);
    forall c | c in cols ensures c in ch && ch[c] == cols[c] { assert c in KindsOf(cols); }
    forall c | c in ch ensures CountIn(ch, c) <= n {
      if c in cols { assert CountIn(cols, c) == n; }
    }
    if n > 0 {
      MaxReached(cols);
      var c :| c in cols && CountIn(cols, c) == n;
      assert CountIn(ch, c) == n;
    }
    MaxUnique(ch, n);
  }

  lemma ChosenAt(cols: Cols, n: nat, schema: Schema, c: Name)
    requires Even(cols, n) && n == Max(cols) && Covers(schema, KindsOf(cols)) && c in schema
    ensures var f := FillNulls(Chosen(cols, schema));
      c in f && f[c] == Column(schema[c], if c in cols then cols[c].cells else Nulls(n))
  {
    hide Max;
    ChosenMax(cols, n, schema);
    var ch := Chosen(cols, schema);
    if c in cols {
      assert c in KindsOf(cols) && CountIn(cols, c) == n;
      assert cols[c].cells + Nulls(0) == cols[c].cells;
    } else {
      assert CountIn(ch, c) == 0 && [] + Nulls(n) == Nulls(n);
    }
  }

  /** Under a covering schema each column is the block's own, or as many nulls as the block has rows. */
  lemma ChosenIs(cols: Cols, n: nat, schema: Schema)
    requires Even(cols, n) && n == Max(cols) && Covers(schema, KindsOf(cols))
    ensures var f := FillNulls(Chosen(cols, schema));
      && f.Keys == schema.Keys
      && forall c :: c in schema ==>
           f[c].kind == schema[c] && f[c].cells == if c in cols then cols[c].cells else Nulls(n)
  {
    hide FillNulls, Max, Even, Covers;
    var f := FillNulls(Chosen(cols, schema));
    FillKeys(Chosen(cols, schema));
    ChosenKeys(cols, schema);
    forall c | c in schema
      ensures f[c].kind == schema[c] && f[c].cells == if c in cols then cols[c].cells else Nulls(n)
    {
      ChosenAt(cols, n, schema, c);
    }
  }

  /** The columns of a block that have the name and the type of one of the schema. */
  function Fitting(cols: Cols, schema: Schema): Cols {
    map c | c in cols && c in schema && cols[c].kind == schema[c] :: cols[c]
  }

  /** Only those matter; if there are none the block has no rows to give. */
  lemma FittingIs(cols: Cols, schema: Schema)
    requires Even(cols, Max(cols))
    ensures var fit := Fitting(cols, schema);
      && Chosen(fit, schema) == Chosen(cols, schema) && Covers(schema, KindsOf(fit))
      && Even(fit, Max(fit)) && Max(fit) == if fit == map[] then 0 else Max(cols)
  {
    hide Max;
    var fit := Fitting(cols, schema);
    forall c | c in fit ensures CountIn(fit, c) == Max(cols) { assert CountIn(cols, c) == Max(cols); }
    if fit == map[] {
      MaxUnique(fit, 0);
    } else {
      var c :| c in fit;
      MaxUnique(fit, Max(cols));
    }
  }

  lemma CoveredFits(cols: Cols, schema: Schema)
    requires Covers(schema, KindsOf(cols))
    ensures Fitting(cols, schema) == cols
  {
    forall c | c in cols ensures c in schema && schema[c] == cols[c].kind { assert c in KindsOf(cols); }
  }

  lemma BlockRowsIs(b: Stored, cols: Cols, schema: Schema, names: seq<Name>, codec: Codec)
    requires Written(b, cols, codec) && RoundTrips(codec) && Supported(cols) && Even(cols, Max(cols))
    requires names != [] && forall c :: c in names ==> c in schema
    ensures var fit := Fitting(cols, schema);
      BlockRows(b, schema, names, codec) == ProjectedRows(fit, Max(fit), schema, names)
  {
    hide Written, RoundTrips, Select, SchemaOf, FillNulls, Chosen, Max, Supported, Shown, Fitting, Covers;
    SchemaAsWritten(b, cols, codec);
    assert SchemaOf(b).Keys == cols.Keys;
    SelectAsWritten(b, cols, codec, cols.Keys);
    assert (map c | c in cols.Keys && c in cols :: cols[c]) == cols;
    FittingIs(cols, schema);
    var fit := Fitting(cols, schema);
    var n := Max(fit);
    ChosenIs(fit, n, schema);
    var f := FillNulls(Chosen(fit, schema));
    assert |f[names[0]].cells| == n;
    forall i | 0 <= i < n ensures RowAt(f, names, i) == Projection(fit, schema, names, i) {
      RowIs(f, fit, n, schema, names, i);
    }
    assert RowsUpTo(f, names, n) == ProjectedRows(fit, n, schema, names);
  }

  lemma RowIs(f: Cols, cols: Cols, n: nat, schema: Schema, names: seq<Name>, i: nat)
    requires i < n && Even(cols, n) && f.Keys == schema.Keys && forall c :: c in names ==> c in schema
    requires forall c :: c in schema ==>
      f[c].kind == schema[c] && f[c].cells == if c in cols then cols[c].cells else Nulls(n)
    ensures RowAt(f, names, i) == Projection(cols, schema, names, i)
  {
    hide Shown;
    forall j | 0 <= j < |names| ensures RowAt(f, names, i)[j] == Projection(cols, schema, names, i)[j] {
      var c := names[j];
      assert c in names;
      if c !in cols { NullShows(schema[c]); } else { assert CountIn(cols, c) == n; }
    }
  }

  lemma NullShows(kind: Type) ensures Shown(kind, None) == None { }

  /** The blocks were written of these columns, each of one length. */
  ghost predicate Holding(blocks: seq<Stored>, stored: seq<Cols>, codec: Codec) {
    && |stored| == |blocks|
    && forall k :: 0 <= k < |blocks| ==>
         Written(blocks[k], stored[k], codec) && Supported(stored[k]) && Even(stored[k], Max(stored[k]))
  }

  /** What each block can give under the schema, and how many rows. */
  ghost function Kept(stored: seq<Cols>, schema: Schema): (contents: seq<(Cols, nat)>)
    ensures |contents| == |stored|
  {
    seq(|stored|, k requires 0 <= k < |stored| =>
      (Fitting(stored[k], schema), Max(Fitting(stored[k], schema))))
  }

  /** When the schema covers every block, that is all of it. */
  lemma CoveredIsKept(stored: seq<Cols>, schema: Schema, k: nat)
    requires k < |stored| && Covers(schema, KindsOf(stored[k]))
    ensures Kept(stored, schema)[k] == (stored[k], Max(stored[k]))
  {
    hide Max, Fitting;
    CoveredFits(stored[k], schema);
  }

  /** For any group and any schema, the writer gets the rows of the blocks, in block order, with columns in sorted order
      and null exactly where the block lacks a column of that name and type. */
  lemma {:induction false} OutputIsProjection(blocks: seq<Stored>, stored: seq<Cols>, schema: Schema, names: seq<Name>,
      codec: Codec)
    requires Holding(blocks, stored, codec) && RoundTrips(codec)
    requires names != [] && forall c :: c in names ==> c in schema
    ensures Output(blocks, schema, names, codec) == Projected(Kept(stored, schema), schema, names)
    decreases |blocks|
  {
    hide Written, RoundTrips, Supported, Even, Max, BlockRows, Projection, Fitting;
    if blocks != [] {
      var k := |blocks| - 1;
      OutputIsProjection(blocks[..k], stored[..k], schema, names, codec);
      BlockRowsIs(blocks[k], stored[k], schema, names, codec);
      assert Kept(stored, schema)[..k] == Kept(stored[..k], schema);
    }
  }

  // ---- cell by cell ----

  /** The rows of the blocks before block `b`. */
  function Before(contents: seq<(Cols, nat)>, b: nat): nat
    requires b <= |contents|
  {
    if b == 0 then 0 else Before(contents, b - 1) + contents[b - 1].1
  }

  lemma {:induction false} BeforePrefix(contents: seq<(Cols, nat)>, n: nat, b: nat)
    requires b <= n <= |contents|
    ensures Before(contents[..n], b) == Before(contents, b) <= Before(contents, n)
  {
    if b > 0 {
      BeforePrefix(contents, n, b - 1);
      BeforeGrows(contents, b, n);
    } else {
      BeforeGrows(contents, 0, n);
    }
  }

  lemma {:induction false} BeforeGrows(contents: seq<(Cols, nat)>, b: nat, n: nat)
    requires b <= n <= |contents|
    ensures Before(contents, b) <= Before(contents, n)
  {
    if b < n { BeforeGrows(contents, b, n - 1); }
  }

  lemma {:induction false} ProjectedLength(contents: seq<(Cols, nat)>, schema: Schema, names: seq<Name>)
    requires forall c :: c in names ==> c in schema
    ensures |Projected(contents, schema, names)| == Before(contents, |contents|)
  {
    hide Projection;
    if contents != [] {
      var k := |contents| - 1;
      ProjectedLength(contents[..k], schema, names);
      BeforePrefix(contents, k, k);
    }
  }

  lemma {:induction false} ProjectedAt(contents: seq<(Cols, nat)>, schema: Schema, names: seq<Name>, b: nat, i: nat)
    requires (forall c :: c in names ==> c in schema) && b < |contents| && i < contents[b].1
    ensures var rows, at := Projected(contents, schema, names), Before(contents, b) + i;
      at < |rows| && rows[at] == Projection(contents[b].0, schema, names, i)
    decreases |contents|
  {
    hide Projection;
    var k := |contents| - 1;
    ProjectedLength(contents[..k], schema, names);
    BeforePrefix(contents, k, k);
    if b < k {
      ProjectedAt(contents[..k], schema, names, b, i);
      BeforePrefix(contents, k, b);
    }
  }

  /** What the file holds for row `i` of block `b` under the name `c`: null exactly where the block lacks the column or
      stores a null, the whole seconds of a timestamp, and every other value as it was stored. */
  ghost predicate HandsOver(cols: Cols, i: nat, kind: Type, c: Name, got: Cell) {
    && (got.None? <==> c !in cols || i >= |cols[c].cells| || cols[c].cells[i].None?)
    && (got.Some? && kind != TimestampType ==> got == cols[c].cells[i])
    && (got.Some? && kind == TimestampType && cols[c].cells[i].value.Int? ==>
         && got.value.Int?
         && var ms, s := cols[c].cells[i].value.value, got.value.value;
            && (ms >= 0 ==> 0 <= s && s * 1000 <= ms < s * 1000 + 1000)
            && (ms <= 0 ==> s <= 0 && s * 1000 - 1000 < ms <= s * 1000))
  }

  /** The rows are those of the blocks, block after block, each with one cell per name. */
  ghost predicate Merged(rows: seq<OrcRow>, contents: seq<(Cols, nat)>, schema: Schema, names: seq<Name>)
    requires forall c :: c in names ==> c in schema
  {
    && |rows| == Before(contents, |contents|)
    && forall b, i :: 0 <= b < |contents| && 0 <= i < contents[b].1 ==>
         MergedRow(rows, contents, b, i, schema, names)
  }

  ghost predicate MergedRow(rows: seq<OrcRow>, contents: seq<(Cols, nat)>, b: nat, i: nat, schema: Schema,
      names: seq<Name>)
    requires b < |contents| && forall c :: c in names ==> c in schema
  {
    var at := Before(contents, b) + i;
    && at < |rows| && |rows[at]| == |names|
    && forall j :: 0 <= j < |names| ==> HandsOver(contents[b].0, i, schema[names[j]], names[j], rows[at][j])
  }

  lemma ProjectionCells(cols: Cols, i: nat, schema: Schema, names: seq<Name>, j: nat)
    requires (forall c :: c in names ==> c in schema) && j < |names|
    ensures HandsOver(cols, i, schema[names[j]], names[j], Projection(cols, schema, names, i)[j])
  {
    hide Shown;
    var c := names[j];
    assert c in names;
    if c in cols && i < |cols[c].cells| { ShownIs(schema[c], cols[c].cells[i]); }
  }

  lemma ProjectedIsMerged(contents: seq<(Cols, nat)>, schema: Schema, names: seq<Name>)
    requires forall c :: c in names ==> c in schema
    ensures Merged(Projected(contents, schema, names), contents, schema, names)
  {
    hide Projection, HandsOver;
    ProjectedLength(contents, schema, names);
    var rows := Projected(contents, schema, names);
    forall b, i | 0 <= b < |contents| && 0 <= i < contents[b].1
      ensures MergedRow(rows, contents, b, i, schema, names)
    {
      ProjectedAt(contents, schema, names, b, i);
      ProjectionLength(contents[b].0, schema, names, i);
      forall j | 0 <= j < |names|
        ensures HandsOver(contents[b].0, i, schema[names[j]], names[j], Projection(contents[b].0, schema, names, i)[j])
      {
        ProjectionCells(contents[b].0, i, schema, names, j);
      }
    }
  }

  /** Cell by cell, what the writer gets is what the blocks were written of, as far as it fits the schema. */
  lemma OutputIsMerged(blocks: seq<Stored>, stored: seq<Cols>, schema: Schema, names: seq<Name>, codec: Codec)
    requires Holding(blocks, stored, codec) && RoundTrips(codec)
    requires names != [] && forall c :: c in names ==> c in schema
    ensures Merged(Output(blocks, schema, names, codec), Kept(stored, schema), schema, names)
  {
    hide Holding, RoundTrips, Output, Projected, Merged, Kept;
    OutputIsProjection(blocks, stored, schema, names, codec);
    ProjectedIsMerged(Kept(stored, schema), schema, names);
  }

  lemma ProjectionLength(cols: Cols, schema: Schema, names: seq<Name>, i: nat)
    requires forall c :: c in names ==> c in schema
    ensures |Projection(cols, schema, names, i)| == |names|
  {
  }

  /** A block that cannot be selected is passed over. */
  lemma UnreadableIsSkipped(blocks: seq<Stored>, b: Stored, schema: Schema, names: seq<Name>, codec: Codec)
    requires names != [] && (forall c :: c in names ==> c in schema) && Select(b, SchemaOf(b).Keys, codec).None?
    ensures Output(blocks + [b], schema, names, codec) == Output(blocks, schema, names, codec)
  {
    hide Select, SchemaOf, FillNulls, Chosen;
    assert (blocks + [b])[..|blocks|] == blocks;
  }
}

/** Sets of named columns (column.go) filled row by row (row.go). */
module ColumnSets {
  import opened ByteStrings
  import opened Orders
  import opened ColumnData

  type Cols = map<Name, Column>

  /** A row's values and the types its schema gives them; a nil value is None. */
  datatype Row = Row(values: map<Name, Cell>, schema: map<Name, Type>)

  function TypeIn(row: Row, c: Name): Type { if c in row.schema then row.schema[c] else Unsupported }

  predicate NameStart(b: Byte) { 65 <= b <= 90 || 97 <= b <= 122 || b == 95 }

  /** ^[a-zA-Z_][a-zA-Z0-9_]*$ */
  predicate IsValidName(c: Name) {
    |c| > 0 && NameStart(c[0]) && forall i :: 1 <= i < |c| ==> NameStart(c[i]) || 48 <= c[i] <= 57
  }

  /** A letter or an underscore, then letters, digits and underscores. */
  lemma NamesMatch(c: Name)
    ensures IsValidName(c) <==>
      && c != []
      && !('0' as int <= c[0] <= '9' as int)
      && forall b :: b in c ==>
           || 'a' as int <= b <= 'z' as int || 'A' as int <= b <= 'Z' as int
           || '0' as int <= b <= '9' as int || b == '_' as int
  {
    if IsValidName(c) {
      forall b | b in c ensures NameStart(b) || 48 <= b <= 57 {
        var i :| 0 <= i < |c| && c[i] == b;
      }
    } else if c != [] && NameStart(c[0]) {
      var i :| 1 <= i < |c| && !(NameStart(c[i]) || 48 <= c[i] <= 57);
      assert c[i] in c;
    } else if c != [] {
      assert c[0] in c;
    }
  }

  function Nulls(n: nat): (s: seq<Cell>)
    ensures |s| == n
  {
    seq(n, _ => None)
  }

  function CountIn(cols: Cols, c: Name): nat
    requires c in cols
  {
    |cols[c].cells|
  }

  ghost predicate IsMax(cols: Cols, m: nat) {
    && (forall c :: c in cols ==> CountIn(cols, c) <= m)
    && (m == 0 || exists c :: c in cols && CountIn(cols, c) == m)
  }

  ghost function Max(cols: Cols): (m: nat)
    ensures IsMax(cols, m)
    decreases |cols|
  {
    if cols == map[] then 0
    else
      var c :| c in cols;
      var rest := cols - {c};
      var m := Max(rest);
      assert forall d :: d in cols ==> d == c || (d in rest && CountIn(rest, d) == CountIn(cols, d));
      if CountIn(cols, c) > m then CountIn(cols, c)
      else
        assert m > 0 ==> exists d :: d in rest && CountIn(rest, d) == m && CountIn(cols, d) == m;
        m
  }

  lemma MaxUnique(cols: Cols, m: nat)
    requires IsMax(cols, m)
    ensures m == Max(cols)
  {
  }

  /** Columns.Append: an unknown name starts a column, backfilled to one less than the longest column. */
  ghost function AppendCell(cols: Cols, name: Name, value: Cell, typ: Type): Cols {
    if !IsValidName(name) then cols
    else if name in cols then cols[name := Column(cols[name].kind, cols[name].cells + [value])]
    else if typ == Unsupported then cols
    else
      var until := if Max(cols) == 0 then 0 else Max(cols) - 1;
      cols[name := Column(typ, Nulls(until) + [value])]
  }

  ghost function FillNulls(cols: Cols): Cols {
    map c | c in cols :: Column(cols[c].kind, cols[c].cells + Nulls(Max(cols) - CountIn(cols, c)))
  }

  /** Row.AppendTo, visiting the values in the given order. */
  ghost function AppendIn(cols: Cols, row: Row, order: seq<Name>): Cols
    requires forall c :: c in order ==> c in row.values
  {
    if order == [] then cols
    else
      var n := |order| - 1;
      AppendCell(AppendIn(cols, row, order[..n]), order[n], row.values[order[n]], TypeIn(row, order[n]))
  }

  /** An order in which a map of values may be visited. */
  ghost predicate Visits(order: seq<Name>, row: Row) {
    Enumerates(order, row.values.Keys) && forall c :: c in order ==> c in row.values
  }

  // ---- one row ----

  ghost predicate Even(cols: Cols, n: nat) { forall c :: c in cols ==> CountIn(cols, c) == n }

  /** Whether a value of the row lands in a column at all. */
  predicate Contributes(cols: Cols, row: Row, c: Name) {
    c in row.values && IsValidName(c) && (c in cols || TypeIn(row, c) != Unsupported)
  }

  ghost predicate Silent(cols: Cols, row: Row) { forall c :: !Contributes(cols, row, c) }

  function ValueIn(row: Row, c: Name): Cell {
    if c in row.values && IsValidName(c) then row.values[c] else None
  }

  /** The table with the row added: old columns get its value or null, new ones start with a null for every older row.
      */
  ghost function WithRow(cols: Cols, n: nat, row: Row): Cols {
    if Silent(cols, row) then cols
    else
      map c | c in cols.Keys + row.values.Keys && (c in cols || Contributes(cols, row, c)) ::
        if c in cols then Column(cols[c].kind, cols[c].cells + [ValueIn(row, c)])
        else Column(TypeIn(row, c), Nulls(n) + [ValueIn(row, c)])
  }

  /** New columns started before any column had its value for this row: they are backfilled one null short. */
  ghost function Early(cols: Cols, n: nat, row: Row, p: seq<Name>): set<Name> {
    if p == [] || n == 0 then {}
    else
      var k := |p| - 1;
      var e := Early(cols, n, row, p[..k]);
      if Contributes(cols, row, p[k]) && p[k] !in cols && !Full(cols, n, row, p[..k]) then e + {p[k]} else e
  }

  /** Some column has its value for this row. */
  ghost predicate Full(cols: Cols, n: nat, row: Row, p: seq<Name>) {
    if p == [] then false
    else
      var k := |p| - 1;
      Full(cols, n, row, p[..k]) || (Contributes(cols, row, p[k]) && (n == 0 || p[k] in cols))
  }

  /** What the columns are after part of the row. */
  ghost function Partial(cols: Cols, n: nat, row: Row, p: seq<Name>): Cols {
    map c | c in cols.Keys + row.values.Keys && (c in cols || (c in p && Contributes(cols, row, c))) ::
      if c in cols then
        Column(cols[c].kind, cols[c].cells + (if c in p && Contributes(cols, row, c) then [row.values[c]] else []))
      else
        Column(TypeIn(row, c), Nulls(if c in Early(cols, n, row, p) then n - 1 else n) + [row.values[c]])
  }

  lemma {:induction false} EarlyIs(cols: Cols, n: nat, row: Row, p: seq<Name>)
    ensures forall c :: c in Early(cols, n, row, p) ==> n > 0 && c in p && Contributes(cols, row, c) && c !in cols
    ensures Full(cols, n, row, p) <==> exists c :: c in p && Contributes(cols, row, c) && c !in Early(cols, n, row, p)
    ensures !Full(cols, n, row, p) ==> forall c :: c in p && Contributes(cols, row, c) ==> c in Early(cols, n, row, p)
    decreases |p|
  {
    hide Contributes;
    if p != [] {
      var k := |p| - 1;
      var q, c := p[..k], p[k];
      EarlyIs(cols, n, row, q);
      assert forall d :: d in p <==> d in q || d == c;
    }
  }

  lemma PartialMax(cols: Cols, n: nat, row: Row, p: seq<Name>)
    requires Even(cols, n) && n == Max(cols) && forall c :: c in p ==> c in row.values
    ensures Max(Partial(cols, n, row, p)) == n + (if Full(cols, n, row, p) then 1 else 0)
  {
    hide Contributes, Full, Early, Max;
    EarlyIs(cols, n, row, p);
    var after := Partial(cols, n, row, p);
    var m := n + (if Full(cols, n, row, p) then 1 else 0);
    forall c | c in after ensures CountIn(after, c) <= m { }
    if Full(cols, n, row, p) {
      var c :| c in p && Contributes(cols, row, c) && c !in Early(cols, n, row, p);
      assert c in after && CountIn(after, c) == n + 1;
    } else if n > 0 {
      MaxReached(cols);
      var c :| c in cols && CountIn(cols, c) == n;
      assert !(c in p && Contributes(cols, row, c));
      assert c in after && CountIn(after, c) == n;
    }
    MaxUnique(after, m);
  }

  lemma MaxReached(cols: Cols)
    ensures Max(cols) > 0 ==> exists c :: c in cols && CountIn(cols, c) == Max(cols)
  {
    assert IsMax(cols, Max(cols));
  }

  /** One more value touches only its own column. */
  lemma PartialOther(cols: Cols, n: nat, row: Row, q: seq<Name>, c: Name, d: Name)
    requires c !in q && d != c
    ensures d in Partial(cols, n, row, q + [c]) <==> d in Partial(cols, n, row, q)
    ensures d in Partial(cols, n, row, q) ==> Partial(cols, n, row, q + [c])[d] == Partial(cols, n, row, q)[d]
  {
    hide Contributes, Early, Full;
    EarlyStep(cols, n, row, q, c);
    assert d in q + [c] <==> d in q;
  }

  lemma AppendOther(cols: Cols, name: Name, value: Cell, typ: Type, d: Name)
    requires d != name
    ensures var after := AppendCell(cols, name, value, typ);
      (d in after <==> d in cols) && (d in cols ==> after[d] == cols[d])
  {
    hide Max, IsValidName, Nulls;
  }

  lemma PartialStep(cols: Cols, n: nat, row: Row, q: seq<Name>, c: Name)
    requires Even(cols, n) && n == Max(cols) && (forall d :: d in q + [c] ==> d in row.values) && c !in q
    ensures AppendCell(Partial(cols, n, row, q), c, row.values[c], TypeIn(row, c)) == Partial(cols, n, row, q + [c])
  {
    hide Max, Partial, Early, AppendCell, Even;
    var before, after := Partial(cols, n, row, q), Partial(cols, n, row, q + [c]);
    var got := AppendCell(before, c, row.values[c], TypeIn(row, c));
    PartialMine(cols, n, row, q, c);
    forall d | d != c
      ensures (d in after <==> d in got) && (d in got ==> after[d] == got[d])
    {
      PartialOther(cols, n, row, q, c, d);
      AppendOther(before, c, row.values[c], TypeIn(row, c), d);
    }
    assert after.Keys == got.Keys;
  }

  /** One column after part of the row. */
  lemma PartialAt(cols: Cols, n: nat, row: Row, p: seq<Name>, c: Name)
    ensures var part := Partial(cols, n, row, p);
      && (c in part <==> c in cols || (c in p && Contributes(cols, row, c)))
      && (c in cols && c !in p ==> part[c] == cols[c])
      && (c in cols && c in p && Contributes(cols, row, c) ==>
           part[c] == Column(cols[c].kind, cols[c].cells + [row.values[c]]))
      && (c in cols && !Contributes(cols, row, c) ==> part[c] == cols[c])
      && (c in part && c !in cols ==>
           part[c] == Column(TypeIn(row, c),
                             Nulls(if c in Early(cols, n, row, p) && n > 0 then n - 1 else n) + [row.values[c]]))
  {
    hide Early, Nulls, IsValidName;
    if c in cols { assert cols[c].cells + [] == cols[c].cells; }
    EarlyIs(cols, n, row, p);
  }

  /** ... and treats that one as Append does. */
  lemma PartialMine(cols: Cols, n: nat, row: Row, q: seq<Name>, c: Name)
    requires Even(cols, n) && n == Max(cols) && (forall d :: d in q + [c] ==> d in row.values) && c !in q
    ensures var after := Partial(cols, n, row, q + [c]);
      var got := AppendCell(Partial(cols, n, row, q), c, row.values[c], TypeIn(row, c));
      (c in after <==> c in got) && (c in got ==> after[c] == got[c])
  {
    hide Max, Full, Early, IsValidName, Nulls, Partial, Even;
    PartialMax(cols, n, row, q);
    EarlyIs(cols, n, row, q);
    EarlyStep(cols, n, row, q, c);
    assert c in q + [c];
    PartialAt(cols, n, row, q, c);
    PartialAt(cols, n, row, q + [c], c);
  }

  lemma PartialNone(cols: Cols, n: nat, row: Row)
    ensures Partial(cols, n, row, []) == cols
  {
    forall c | c in cols ensures Partial(cols, n, row, [])[c] == cols[c] {
      assert cols[c].cells + [] == cols[c].cells;
    }
  }

  lemma EarlyStep(cols: Cols, n: nat, row: Row, q: seq<Name>, c: Name)
    requires c !in q
    ensures var e := Early(cols, n, row, q);
      Early(cols, n, row, q + [c])
      == if n > 0 && Contributes(cols, row, c) && c !in cols && !Full(cols, n, row, q) then e + {c} else e
  {
    assert (q + [c])[..|q|] == q;
    if n == 0 { assert Early(cols, n, row, q) == {}; }
  }

  lemma {:induction false} AppendInIsPartial(cols: Cols, n: nat, row: Row, order: seq<Name>)
    requires Even(cols, n) && n == Max(cols) && Distinct(order) && forall c :: c in order ==> c in row.values
    ensures AppendIn(cols, row, order) == Partial(cols, n, row, order)
    decreases |order|
  {
    hide Max, Contributes, Early, AppendCell;
    if order == [] {
      PartialNone(cols, n, row);
    } else {
      var k := |order| - 1;
      AppendInIsPartial(cols, n, row, order[..k]);
      assert order[k] !in order[..k];
      PartialStep(cols, n, row, order[..k], order[k]);
      assert order[..k] + [order[k]] == order;
    }
  }

  lemma {:induction false} EnumeratesDistinct(order: seq<Name>, s: set<Name>)
    requires Enumerates(order, s)
    ensures Distinct(order)
  {
    if order != [] {
      EnumeratesRest(order, s);
      EnumeratesDistinct(order[1..], s - {order[0]});
      EnumeratesMembers(order[1..], s - {order[0]});
      assert order[0] !in order[1..];
    }
  }

  /** The row is aligned when a column that already exists gets its value before any new column gets one that is not
      null; or when there are no rows yet, or nothing lands. */
  ghost predicate Aligned(cols: Cols, n: nat, row: Row, order: seq<Name>) {
    || n == 0
    || Silent(cols, row)
    || exists e :: 0 <= e < |order| && order[e] in cols && Contributes(cols, row, order[e])
         && forall f :: 0 <= f < e ==> NotNewValue(cols, row, order[f])
  }

  /** Nothing but a null lands in a new column of that name. */
  predicate NotNewValue(cols: Cols, row: Row, c: Name) {
    Contributes(cols, row, c) && c !in cols ==> row.values[c].None?
  }

  lemma {:induction false} FullIs(cols: Cols, n: nat, row: Row, p: seq<Name>)
    ensures Full(cols, n, row, p)
       <==> exists e :: 0 <= e < |p| && Contributes(cols, row, p[e]) && (n == 0 || p[e] in cols)
    decreases |p|
  {
    hide Contributes;
    if p != [] {
      var k := |p| - 1;
      FullIs(cols, n, row, p[..k]);
      if Full(cols, n, row, p[..k]) {
        var e :| 0 <= e < k && Contributes(cols, row, p[..k][e]) && (n == 0 || p[..k][e] in cols);
        assert p[e] == p[..k][e];
      }
      if e :| 0 <= e < |p| && Contributes(cols, row, p[e]) && (n == 0 || p[e] in cols) {
        if e < k { assert p[..k][e] == p[e]; }
      }
    }
  }

  /** Early columns are those that come before the first existing one. */
  lemma {:induction false} EarlyAt(cols: Cols, n: nat, row: Row, p: seq<Name>, f: nat)
    requires Distinct(p) && f < |p| && n > 0
    ensures p[f] in Early(cols, n, row, p)
       <==> Contributes(cols, row, p[f]) && p[f] !in cols && !Full(cols, n, row, p[..f])
    decreases |p|
  {
    hide Contributes, Full;
    var k := |p| - 1;
    if f < k {
      EarlyAt(cols, n, row, p[..k], f);
      assert p[..k][..f] == p[..f] && p[..k][f] == p[f];
    } else {
      EarlyIs(cols, n, row, p[..k]);
      assert p[k] !in p[..k];
    }
  }

  ghost predicate EarlyAreNull(cols: Cols, n: nat, row: Row, order: seq<Name>) {
    forall c :: c in Early(cols, n, row, order) && c in row.values ==> row.values[c].None?
  }

  lemma AlignedMeans(cols: Cols, n: nat, row: Row, order: seq<Name>)
    requires n > 0 && !Silent(cols, row) && Distinct(order) && forall c :: c in order <==> c in row.values
    ensures Aligned(cols, n, row, order) <==> Full(cols, n, row, order) && EarlyAreNull(cols, n, row, order)
  {
    hide Contributes, Early, Full, Silent;
    FullIs(cols, n, row, order);
    if Aligned(cols, n, row, order) {
      var e :| 0 <= e < |order| && order[e] in cols && Contributes(cols, row, order[e])
        && forall f :: 0 <= f < e ==> NotNewValue(cols, row, order[f]);
      forall f | e < f < |order| ensures Full(cols, n, row, order[..f]) {
        FullIs(cols, n, row, order[..f]);
        assert order[..f][e] == order[e];
      }
      forall c | c in Early(cols, n, row, order) && c in row.values ensures row.values[c].None? {
        var f :| 0 <= f < |order| && order[f] == c;
        EarlyAt(cols, n, row, order, f);
      }
    }
    if Full(cols, n, row, order) && EarlyAreNull(cols, n, row, order) {
      var e := FirstExisting(cols, row, order);
      forall f | 0 <= f < e ensures NotNewValue(cols, row, order[f]) {
        EarlyAt(cols, n, row, order, f);
        FullIs(cols, n, row, order[..f]);
        assert forall x :: 0 <= x < f ==> order[..f][x] == order[x];
        assert order[f] in order;
      }
    }
  }

  lemma {:induction false} FirstExisting(cols: Cols, row: Row, order: seq<Name>) returns (e: nat)
    requires exists i :: 0 <= i < |order| && Contributes(cols, row, order[i]) && order[i] in cols
    ensures e < |order| && Contributes(cols, row, order[e]) && order[e] in cols
    ensures forall f :: 0 <= f < e ==> !(Contributes(cols, row, order[f]) && order[f] in cols)
  {
    hide Contributes;
    e := 0;
    while !(Contributes(cols, row, order[e]) && order[e] in cols)
      invariant e < |order|
      invariant forall f :: 0 <= f < e ==> !(Contributes(cols, row, order[f]) && order[f] in cols)
      decreases |order| - e
    {
      e := e + 1;
    }
  }

  /** Filling up after a row is right exactly when some column has its value and early columns started with a null. */
  lemma FilledIsRow(cols: Cols, n: nat, row: Row, order: seq<Name>)
    requires Even(cols, n) && n == Max(cols) && !Silent(cols, row) && forall c :: c in order <==> c in row.values
    ensures FillNulls(Partial(cols, n, row, order)) == WithRow(cols, n, row)
       <==> Full(cols, n, row, order) && EarlyAreNull(cols, n, row, order)
  {
    hide Max, Full, Early, Silent, Partial, WithRow, FillNulls;
    var got, want := FillNulls(Partial(cols, n, row, order)), WithRow(cols, n, row);
    FilledKeys(cols, n, row, order);
    if !Full(cols, n, row, order) {
      NotFullIsShort(cols, n, row, order);
    } else {
      forall c | c in got
        ensures c in Early(cols, n, row, order) ==> c in row.values
        ensures got[c] == want[c] <==> (c in Early(cols, n, row, order) ==> row.values[c].None?)
      {
        FilledCell(cols, n, row, order, c);
      }
      forall c | c in Early(cols, n, row, order) ensures c in got { EarlyIsThere(cols, n, row, order, c); }
    }
  }

  lemma NotFullIsShort(cols: Cols, n: nat, row: Row, order: seq<Name>)
    requires Even(cols, n) && n == Max(cols) && !Silent(cols, row) && forall c :: c in order <==> c in row.values
    requires !Full(cols, n, row, order)
    ensures FillNulls(Partial(cols, n, row, order)) != WithRow(cols, n, row)
  {
    hide Max, Full, Early, IsValidName;
    EarlyIs(cols, n, row, order);
    PartialMax(cols, n, row, order);
    var c :| Contributes(cols, row, c);
    assert c in order && c in Early(cols, n, row, order);
    assert |FillNulls(Partial(cols, n, row, order))[c].cells| == n && |WithRow(cols, n, row)[c].cells| == n + 1;
  }

  lemma EarlyIsThere(cols: Cols, n: nat, row: Row, order: seq<Name>, c: Name)
    requires c in Early(cols, n, row, order)
    ensures c in Partial(cols, n, row, order)
  {
    hide Early, Full, IsValidName;
    EarlyIs(cols, n, row, order);
  }

  lemma FilledKeys(cols: Cols, n: nat, row: Row, order: seq<Name>)
    requires !Silent(cols, row) && forall c :: c in order <==> c in row.values
    ensures var part := Partial(cols, n, row, order);
      FillNulls(part).Keys == WithRow(cols, n, row).Keys && FillNulls(part).Keys == part.Keys
  {
    hide Max, Early, Contributes, Silent;
  }

  /** A column that was started one null short is right only if it started with a null. */
  lemma ShortColumn(n: nat, v: Cell)
    requires n > 0
    ensures Nulls(n - 1) + [v] + Nulls(1) == Nulls(n) + [v] <==> v.None?
  {
    var got, want := Nulls(n - 1) + [v] + Nulls(1), Nulls(n) + [v];
    assert got[n - 1] == v && want[n - 1] == None;
    if v.None? { assert got == want; }
  }

  lemma FilledCell(cols: Cols, n: nat, row: Row, order: seq<Name>, c: Name)
    requires Even(cols, n) && n == Max(cols) && !Silent(cols, row) && forall d :: d in order <==> d in row.values
    requires Full(cols, n, row, order) && c in Partial(cols, n, row, order)
    ensures c in WithRow(cols, n, row) && c in FillNulls(Partial(cols, n, row, order))
    ensures (c in Early(cols, n, row, order) ==> c in row.values)
    ensures FillNulls(Partial(cols, n, row, order))[c] == WithRow(cols, n, row)[c]
       <==> (c in Early(cols, n, row, order) ==> row.values[c].None?)
  {
    hide Max, Full, Early, Silent, IsValidName, Nulls;
    EarlyIs(cols, n, row, order);
    PartialMax(cols, n, row, order);
    NoNulls();
    if c in Early(cols, n, row, order) {
      ShortColumn(n, row.values[c]);
    } else if c in cols && !(c in order && Contributes(cols, row, c)) {
      assert cols[c].cells + [] == cols[c].cells;
      OneNull();
    }
  }

  lemma NoNulls() ensures Nulls(0) == [] { }

  lemma OneNull() ensures Nulls(1) == [None] { }

  lemma FillEven(cols: Cols, n: nat)
    requires Even(cols, n) && n == Max(cols)
    ensures FillNulls(cols) == cols
  {
    hide Max;
    forall c | c in cols ensures FillNulls(cols)[c] == cols[c] {
      assert cols[c].cells + Nulls(0) == cols[c].cells;
    }
  }

  /** Appending a row's values in some map order and evening the columns out adds exactly that row to the table if, and
      only if, the row is aligned. */
  lemma RowAddedIff(cols: Cols, n: nat, row: Row, order: seq<Name>)
    requires Even(cols, n) && n == Max(cols) && Enumerates(order, row.values.Keys)
    ensures forall c :: c in order ==> c in row.values
    ensures FillNulls(AppendIn(cols, row, order)) == WithRow(cols, n, row) <==> Aligned(cols, n, row, order)
  {
    hide Max, Full, Early, Partial, WithRow, FillNulls, AppendIn, Contributes;
    EnumeratesMembers(order, row.values.Keys);
    EnumeratesDistinct(order, row.values.Keys);
    AppendInIsPartial(cols, n, row, order);
    if Silent(cols, row) {
      SilentRow(cols, n, row, order);
    } else {
      FilledIsRow(cols, n, row, order);
      if n > 0 {
        AlignedMeans(cols, n, row, order);
      } else {
        FirstRow(cols, row, order);
      }
    }
  }

  /** A row that is not aligned: its new column `b` is visited before the existing column `a`, and its value ends up in
      the row before. */
  lemma NewColumnFirstIsShifted(a: Name, b: Name, kind: Type, t: Type, x: Cell, y: Cell, z: Cell)
    requires IsValidName(a) && IsValidName(b) && a != b && t != Unsupported
    ensures var cols, row := map[a := Column(kind, [x])], Row(map[a := y, b := z], map[b := t]);
      FillNulls(AppendIn(cols, row, [b, a])) == map[a := Column(kind, [x, y]), b := Column(t, [z, None])]
  {
    hide Max, AppendIn, IsValidName;
    ShiftedAppends(a, b, kind, t, x, y, z);
    var two := map[a := Column(kind, [x, y]), b := Column(t, [z])];
    assert CountIn(two, a) == 2;
    MaxUnique(two, 2);
    assert [z] + Nulls(1) == [z, None] && [x, y] + Nulls(0) == [x, y];
  }

  lemma ShiftedAppends(a: Name, b: Name, kind: Type, t: Type, x: Cell, y: Cell, z: Cell)
    requires IsValidName(a) && IsValidName(b) && a != b && t != Unsupported
    ensures var cols, row := map[a := Column(kind, [x])], Row(map[a := y, b := z], map[b := t]);
      AppendIn(cols, row, [b, a]) == map[a := Column(kind, [x, y]), b := Column(t, [z])]
  {
    hide Max, IsValidName;
    var cols, row := map[a := Column(kind, [x])], Row(map[a := y, b := z], map[b := t]);
    var one := map[a := Column(kind, [x]), b := Column(t, [z])];
    assert CountIn(cols, a) == 1;
    MaxUnique(cols, 1);
    assert Nulls(0) + [z] == [z] && [x] + [y] == [x, y];
    assert AppendCell(cols, b, z, t) == one && TypeIn(row, b) == t;
    assert AppendCell(one, a, y, TypeIn(row, a)) == map[a := Column(kind, [x, y]), b := Column(t, [z])] by {
      assert one[a := Column(kind, [x, y])] == map[a := Column(kind, [x, y]), b := Column(t, [z])];
    }
    hide AppendCell;
    assert [b, a][..1] == [b] && [b][..0] == [];
    assert AppendIn(cols, row, [b]) == one;
  }

  lemma SilentRow(cols: Cols, n: nat, row: Row, order: seq<Name>)
    requires Even(cols, n) && n == Max(cols) && Silent(cols, row)
    ensures FillNulls(Partial(cols, n, row, order)) == WithRow(cols, n, row)
  {
    hide Max;
    forall c | c in cols ensures Partial(cols, n, row, order)[c] == cols[c] {
      assert cols[c].cells + [] == cols[c].cells;
    }
    assert Partial(cols, n, row, order) == cols;
    FillEven(cols, n);
  }

  lemma FirstRow(cols: Cols, row: Row, order: seq<Name>)
    requires !Silent(cols, row) && forall c :: c in order <==> c in row.values
    ensures Full(cols, 0, row, order) && EarlyAreNull(cols, 0, row, order)
  {
    hide Contributes, Full;
    var c :| Contributes(cols, row, c);
    assert c in row.values by { ContributesValue(cols, row, c); }
    var e :| 0 <= e < |order| && order[e] == c;
    FullIs(cols, 0, row, order);
  }

  lemma ContributesValue(cols: Cols, row: Row, c: Name)
    requires Contributes(cols, row, c)
    ensures c in row.values
  {
  }

  // ---- sizes ----

  function SizeIn(cols: Cols): Name -> nat {
    c => if c in cols then ColumnSize(cols[c]) else 0
  }

  /** Columns.Size */
  ghost function SetSize(cols: Cols): nat { SetSum(cols.Keys, SizeIn(cols)) }

  lemma SizeUpdate(cols: Cols, c: Name, col: Column)
    ensures SetSize(cols[c := col]) == SetSize(cols) - SizeIn(cols)(c) + ColumnSize(col)
  {
    hide ColumnSize, SetSum;
    var after := cols[c := col];
    SetSumRemove(after.Keys, c, SizeIn(after));
    var rest := cols.Keys - {c};
    assert after.Keys - {c} == rest;
    SetSumCongruent(rest, SizeIn(after), SizeIn(cols));
    if c in cols {
      SetSumRemove(cols.Keys, c, SizeIn(cols));
    } else {
      assert rest == cols.Keys;
    }
  }

  lemma OneMoreSize(kind: Type, cells: seq<Cell>, v: Cell)
    ensures CellsSize(kind, cells + [v]) == CellsSize(kind, cells) + CellSize(kind, v)
  {
    assert (cells + [v])[..|cells|] == cells;
  }

  // ---- the set as an object ----

  function Made(schema: Option<map<Name, Type>>): Cols {
    match schema
    case None => map[]
    case Some(s) => map c | c in s :: Column(s[c], [])
  }

  class ColumnSet {
    var cols: Cols

    /** MakeColumns: an empty column of its type for each name of the schema. */
    constructor (schema: Option<map<Name, Type>>)
      ensures cols == Made(schema)
      ensures schema.None? ==> cols == map[]
      ensures schema.Some? ==> forall c :: c in cols <==> c in schema.value
      ensures schema.Some? ==> forall c :: c in schema.value ==> cols[c] == Column(schema.value[c], [])
    {
      var made: Cols := map[];
      if schema.Some? {
        var rest := schema.value.Keys;
        while rest != {}
          invariant rest <= schema.value.Keys && made.Keys == schema.value.Keys - rest
          invariant forall c :: c in made ==> made[c] == Column(schema.value[c], [])
          decreases |rest|
        {
          var c :| c in rest;
          made := made[c := Column(schema.value[c], [])];
          rest := rest - {c};
        }
      }
      cols := made;
    }

    constructor Of(cols: Cols)
      ensures this.cols == cols
    {
      this.cols := cols;
    }

    method MaxOf() returns (m: nat)
      ensures m == Max(cols)
    {
      m := 0;
      var rest := cols.Keys;
      while rest != {}
        invariant rest <= cols.Keys
        invariant forall c :: c in cols.Keys - rest ==> CountIn(cols, c) <= m
        invariant m == 0 || exists c :: c in cols && CountIn(cols, c) == m
        decreases |rest|
      {
        var c :| c in rest;
        if CountIn(cols, c) > m { m := CountIn(cols, c); }
        rest := rest - {c};
      }
      MaxUnique(cols, m);
    }

    /** Columns.Append: returns what the set has grown by. */
    method Append(name: Name, value: Cell, typ: Type) returns (size: nat)
      modifies this
      ensures cols == AppendCell(old(cols), name, value, typ)
      ensures SetSize(cols) == SetSize(old(cols)) + size
    {
      hide Max, CellsSize, CellSize, SetSize, IsValidName, Nulls;
      if !IsValidName(name) { return 0; }
      if name in cols {
        var col := cols[name];
        SizeUpdate(cols, name, Column(col.kind, col.cells + [value]));
        OneMoreSize(col.kind, col.cells, value);
        cols := cols[name := Column(col.kind, col.cells + [value])];
        return CellSize(col.kind, value);
      }
      if typ == Unsupported { return 0; }
      var max := MaxOf();
      var col: Column;
      col, size := NewColumn(typ, if max == 0 then 0 else max - 1, value);
      SizeUpdate(cols, name, col);
      cols := cols[name := col];
    }

    /** A new column: nulls for the rows before, then the value. */
    static method NewColumn(typ: Type, until: nat, value: Cell) returns (col: Column, size: nat)
      ensures col == Column(typ, Nulls(until) + [value]) && ColumnSize(col) == size
    {
      hide CellsSize, CellSize, Nulls;
      col, size := AppendNulls(Column(typ, []), until);
      NoCellsNoSize(typ);
      assert col.cells == Nulls(until);
      OneMoreSize(typ, col.cells, value);
      col, size := Column(typ, col.cells + [value]), size + CellSize(typ, value);
    }

    /** The loops that append nil to a column. */
    static method AppendNulls(col: Column, count: nat) returns (r: Column, size: nat)
      ensures r == Filled(col, count) && ColumnSize(r) == ColumnSize(col) + size
    {
      hide CellsSize, CellSize;
      r, size := col, 0;
      assert col.cells + Nulls(0) == col.cells;
      for i := 0 to count
        invariant r == Filled(col, i) && ColumnSize(r) == ColumnSize(col) + size
      {
        OneMoreSize(r.kind, r.cells, None);
        assert r.cells + [None] == col.cells + Nulls(i + 1);
        r := Column(r.kind, r.cells + [None]);
        size := size + CellSize(r.kind, None);
      }
    }

    /** Columns.FillNulls: returns what the set has grown by. */
    method Fill() returns (size: nat)
      modifies this
      ensures cols == FillNulls(old(cols))
      ensures SetSize(cols) == SetSize(old(cols)) + size
    {
      hide Max, ColumnSize, SetSize, IsMax, FilledOutside, Filled, FillNulls;
      ghost var before := cols;
      MaxBounds(before);
      FilledEnds(before);
      var max := MaxOf();
      var rest := cols.Keys;
      size := 0;
      while rest != {}
        invariant rest <= before.Keys && cols == FilledOutside(before, rest)
        invariant SetSize(cols) == SetSize(before) + size
        decreases |rest|
      {
        var c :| c in rest;
        FilledNext(before, rest, c);
        var col, n := AppendNulls(cols[c], max - |cols[c].cells|);
        SizeUpdate(cols, c, col);
        cols, size, rest := cols[c := col], size + n, rest - {c};
      }
    }

    /** Row.AppendTo: visits the values in any order. */
    method AppendRow(row: Row) returns (size: nat, ghost order: seq<Name>)
      modifies this
      ensures Visits(order, row) && cols == AppendIn(old(cols), row, order)
      ensures SetSize(cols) == SetSize(old(cols)) + size
    {
      hide AppendCell, SetSize;
      size, order := 0, [];
      var rest := row.values.Keys;
      while rest != {}
        invariant rest <= row.values.Keys && multiset(order) + multiset(rest) == multiset(row.values.Keys)
        invariant forall c :: c in order ==> c in row.values
        invariant cols == AppendIn(old(cols), row, order)
        invariant SetSize(cols) == SetSize(old(cols)) + size
        decreases |rest|
      {
        var k :| k in rest;
        var n := Append(k, row.values[k], TypeIn(row, k));
        size := size + n;
        assert (order + [k])[..|order|] == order;
        assert multiset(rest - {k}) == multiset(rest) - multiset{k};
        order := order + [k];
        rest := rest - {k};
      }
    }

    /** A row as the ingestion loops add it: AppendTo, then FillNulls. The size returned is the growth, whatever the
        row; the set is the table with the row added exactly when the row was aligned in the order taken. */
    method AddRow(row: Row) returns (size: nat, ghost order: seq<Name>)
      modifies this
      ensures Visits(order, row) && cols == FillNulls(AppendIn(old(cols), row, order))
      ensures SetSize(cols) == SetSize(old(cols)) + size
      ensures var n := Max(old(cols)); Even(old(cols), n) ==>
        (cols == WithRow(old(cols), n, row) <==> Aligned(old(cols), n, row, order))
    {
      hide Max, AppendIn, FillNulls, SetSize, WithRow, Aligned, Even;
      ghost var before := cols;
      var a;
      a, order := AppendRow(row);
      if Even(before, Max(before)) { RowAddedIff(before, Max(before), row, order); }
      var b := Fill();
      size := a + b;
    }
  }

  lemma NoCellsNoSize(kind: Type) ensures CellsSize(kind, []) == 0 { }

  lemma MaxBounds(cols: Cols)
    ensures forall c :: c in cols ==> CountIn(cols, c) <= Max(cols)
  {
  }

  function Filled(col: Column, n: nat): Column { Column(col.kind, col.cells + Nulls(n)) }

  /** The set half-way through FillNulls: `rest` are the columns still to be filled. */
  ghost function FilledOutside(cols: Cols, rest: set<Name>): Cols {
    map c | c in cols :: if c in rest then cols[c] else Filled(cols[c], Max(cols) - CountIn(cols, c))
  }

  lemma FilledNext(cols: Cols, rest: set<Name>, c: Name)
    requires rest <= cols.Keys && c in rest
    ensures c in FilledOutside(cols, rest) && FilledOutside(cols, rest)[c] == cols[c]
    ensures FilledOutside(cols, rest)[c := Filled(cols[c], Max(cols) - CountIn(cols, c))]
         == FilledOutside(cols, rest - {c})
  {
    hide Max, Filled;
  }

  lemma FilledEnds(cols: Cols)
    ensures FilledOutside(cols, cols.Keys) == cols && FilledOutside(cols, {}) == FillNulls(cols)
  {
    hide Max;
  }

  // ---- many rows ----

  /** Every value of the row that lands has its column already. */
  ghost predicate Premade(cols: Cols, row: Row) { forall c :: Contributes(cols, row, c) ==> c in cols }

  lemma PremadeAligned(cols: Cols, n: nat, row: Row, order: seq<Name>)
    requires Premade(cols, row) && Enumerates(order, row.values.Keys)
    ensures Aligned(cols, n, row, order)
  {
    hide Contributes;
    if !Silent(cols, row) {
      var c :| Contributes(cols, row, c);
      ContributesValue(cols, row, c);
      EnumeratesMembers(order, row.values.Keys);
      var e :| 0 <= e < |order| && order[e] == c;
      assert forall f :: 0 <= f < e && Contributes(cols, row, order[f]) ==> order[f] in cols;
    }
  }

  lemma WithRowEven(cols: Cols, n: nat, row: Row)
    requires Even(cols, n) && n == Max(cols)
    ensures var n' := n + (if Silent(cols, row) then 0 else 1);
      Even(WithRow(cols, n, row), n') && Max(WithRow(cols, n, row)) == n'
  {
    hide Max, IsValidName;
    if !Silent(cols, row) {
      var c :| Contributes(cols, row, c);
      var after := WithRow(cols, n, row);
      assert c in after && CountIn(after, c) == n + 1;
      MaxUnique(after, n + 1);
    }
  }

  datatype RowOrder = RowOrder(row: Row, order: seq<Name>)

  /** A row with the order in which its values were visited. */
  type Pass = p: RowOrder | Visits(p.order, p.row) witness RowOrder(Row(map[], map[]), [])

  /** Rows added one after the other, each in its own map order. */
  ghost function Added(cols: Cols, ps: seq<Pass>): Cols {
    if ps == [] then cols
    else
      var k := |ps| - 1;
      FillNulls(AppendIn(Added(cols, ps[..k]), ps[k].row, ps[k].order))
  }

  function Rows(ps: seq<Pass>): (rows: seq<Row>)
    ensures |rows| == |ps|
  {
    seq(|ps|, i requires 0 <= i < |ps| => ps[i].row)
  }

  // ---- rows that bring new columns ----

  /** A value that lands, and the type its row gives it. */
  datatype Landing = Landing(value: Cell, typ: Type)

  type Landings = map<Name, Landing>

  /** What lands of a row. */
  ghost function Lands(cols: Cols, row: Row): Landings {
    map c | c in row.values && Contributes(cols, row, c) :: Landing(row.values[c], TypeIn(row, c))
  }

  /** A value lands when its name is valid and has a column, or a supported type to start one with; it lands as it is,
      and a new column takes the type the row's schema gives it. */
  lemma LandsIs(cols: Cols, row: Row)
    ensures forall c :: c in Lands(cols, row) <==>
      c in row.values && IsValidName(c) && (c in cols || (c in row.schema && row.schema[c] != Unsupported))
    ensures forall c :: c in Lands(cols, row) ==> Lands(cols, row)[c].value == row.values[c]
    ensures forall c :: c in Lands(cols, row) && c !in cols ==> Lands(cols, row)[c].typ == row.schema[c]
  {
    hide IsValidName;
  }

  /** What landed of each row that landed at all, in order. */
  ghost function Landed(cols: Cols, ps: seq<Pass>): seq<Landings> {
    if ps == [] then []
    else
      var k := |ps| - 1;
      var before := Added(cols, ps[..k]);
      Landed(cols, ps[..k]) + (if Silent(before, ps[k].row) then [] else [Lands(before, ps[k].row)])
  }

  /** Each row is aligned with the columns it finds. */
  ghost predicate AllAligned(cols: Cols, n: nat, ps: seq<Pass>) {
    forall i :: 0 <= i < |ps| ==> AlignedAt(cols, n, ps, i)
  }

  ghost predicate AlignedAt(cols: Cols, n: nat, ps: seq<Pass>, i: nat)
    requires i < |ps|
  {
    Aligned(Added(cols, ps[..i]), n + |Landed(cols, ps[..i])|, ps[i].row, ps[i].order)
  }

  /** One column of what landed. */
  function Under(landed: seq<Landings>, c: Name): (cells: seq<Cell>)
    ensures |cells| == |landed|
  {
    seq(|landed|, i requires 0 <= i < |landed| => if c in landed[i] then landed[i][c].value else None)
  }

  predicate LandsFirst(landed: seq<Landings>, c: Name, i: nat) {
    i < |landed| && c in landed[i] && forall j :: 0 <= j < i ==> c !in landed[j]
  }

  predicate LandsSomewhere(landed: seq<Landings>, c: Name) { exists i :: 0 <= i < |landed| && c in landed[i] }

  /** One column of the table: an old column keeps its kind; a later one has the type it first landed with, and is null
      for every older row. */
  ghost predicate IsTableAt(cols: Cols, n: nat, landed: seq<Landings>, after: Cols, c: Name) {
    && (c in after <==> c in cols || LandsSomewhere(landed, c))
    && (c in after ==> after[c].cells == (if c in cols then cols[c].cells else Nulls(n)) + Under(landed, c))
    && (c in cols ==> after[c].kind == cols[c].kind)
    && (c !in cols && c in after ==> forall i: nat :: LandsFirst(landed, c, i) ==> after[c].kind == landed[i][c].typ)
  }

  /** The table of what was there and what landed since. */
  ghost predicate IsTable(cols: Cols, n: nat, landed: seq<Landings>, after: Cols) {
    forall c :: IsTableAt(cols, n, landed, after, c)
  }

  lemma UnderSnoc(landed: seq<Landings>, m: Landings, c: Name)
    ensures Under(landed + [m], c) == Under(landed, c) + [if c in m then m[c].value else None]
    ensures !LandsSomewhere(landed, c) ==> Under(landed, c) == Nulls(|landed|)
    ensures LandsSomewhere(landed + [m], c) <==> c in m || LandsSomewhere(landed, c)
  {
    if i :| 0 <= i < |landed| && c in landed[i] { assert c in (landed + [m])[i]; }
    if c in m { assert c in (landed + [m])[|landed|]; }
  }

  lemma UnderNowhere(landed: seq<Landings>, c: Name)
    requires !LandsSomewhere(landed, c)
    ensures Under(landed, c) == Nulls(|landed|)
  {
  }

  predicate NewlyIn(landed: seq<Landings>, m: Landings, c: Name, i: nat) {
    if LandsSomewhere(landed, c) then LandsFirst(landed, c, i) && (landed + [m])[i] == landed[i]
    else i == |landed| && c in m
  }

  lemma LandsFirstSnoc(landed: seq<Landings>, m: Landings, c: Name, i: nat)
    requires LandsFirst(landed + [m], c, i)
    ensures NewlyIn(landed, m, c, i)
  {
    var all := landed + [m];
    assert forall j :: 0 <= j < |landed| ==> all[j] == landed[j];
    if x :| 0 <= x < |landed| && c in landed[x] { assert c in all[x]; }
  }

  /** One column of the table with a row added, in terms of what lands. */
  lemma WithRowAt(t: Cols, n: nat, row: Row, c: Name)
    requires !Silent(t, row)
    ensures var m, after := Lands(t, row), WithRow(t, n, row);
      var v := if c in m then m[c].value else None;
      && (c in after <==> c in t || c in m)
      && (c in t ==> after[c] == Column(t[c].kind, t[c].cells + [v]))
      && (c in after && c !in t ==> after[c] == Column(m[c].typ, Nulls(n) + [v]))
  {
    hide IsValidName, Silent;
  }

  lemma TableStepAt(cols: Cols, n: nat, landed: seq<Landings>, t: Cols, row: Row, c: Name)
    requires IsTableAt(cols, n, landed, t, c) && !Silent(t, row)
    ensures IsTableAt(cols, n, landed + [Lands(t, row)], WithRow(t, n + |landed|, row), c)
  {
    hide Under, Silent, WithRow, Lands, LandsSomewhere;
    var m := Lands(t, row);
    WithRowAt(t, n + |landed|, row, c);
    UnderSnoc(landed, m, c);
    if c !in t { assert Nulls(n) + Nulls(|landed|) == Nulls(n + |landed|); }
    forall i: nat ensures LandsFirst(landed + [m], c, i) ==> NewlyIn(landed, m, c, i) {
      if LandsFirst(landed + [m], c, i) { LandsFirstSnoc(landed, m, c, i); }
    }
  }

  lemma TableStep(cols: Cols, n: nat, landed: seq<Landings>, t: Cols, row: Row)
    requires IsTable(cols, n, landed, t) && !Silent(t, row)
    ensures IsTable(cols, n, landed + [Lands(t, row)], WithRow(t, n + |landed|, row))
  {
    hide IsTableAt, Silent, WithRow, Lands;
    var landed', after := landed + [Lands(t, row)], WithRow(t, n + |landed|, row);
    forall c ensures IsTableAt(cols, n, landed', after, c) {
      TableStepAt(cols, n, landed, t, row, c);
    }
  }

  lemma AlignedRow(cols: Cols, n: nat, row: Row, order: seq<Name>)
    requires Even(cols, n) && n == Max(cols) && Visits(order, row) && Aligned(cols, n, row, order)
    ensures var after := FillNulls(AppendIn(cols, row, order));
      var n' := n + (if Silent(cols, row) then 0 else 1);
      after == WithRow(cols, n, row) && Even(after, n') && Max(after) == n'
  {
    hide Max, FillNulls, AppendIn, WithRow, Aligned, Even;
    RowAddedIff(cols, n, row, order);
    WithRowEven(cols, n, row);
  }

  lemma TableNone(cols: Cols, n: nat)
    ensures IsTable(cols, n, [], cols)
  {
    forall c ensures IsTableAt(cols, n, [], cols, c) {
      if c in cols { assert cols[c].cells + Under([], c) == cols[c].cells; }
    }
  }

  /** `t` is the table of the rows landed so far, with all its columns of one length. */
  ghost predicate EvenTable(cols: Cols, n: nat, landed: seq<Landings>, t: Cols) {
    IsTable(cols, n, landed, t) && Even(t, n + |landed|) && Max(t) == n + |landed|
  }

  lemma OneMoreRow(cols: Cols, n: nat, landed: seq<Landings>, t: Cols, row: Row, order: seq<Name>)
    requires EvenTable(cols, n, landed, t)
    requires Visits(order, row) && Aligned(t, n + |landed|, row, order)
    ensures EvenTable(cols, n, landed + (if Silent(t, row) then [] else [Lands(t, row)]),
                      FillNulls(AppendIn(t, row, order)))
  {
    hide Max, FillNulls, AppendIn, Silent, Visits, Even, Aligned, IsTable, Lands;
    AlignedRow(t, n + |landed|, row, order);
    if Silent(t, row) {
      assert landed + [] == landed;
    } else {
      TableStep(cols, n, landed, t, row);
    }
  }

  /** Columns are the transpose of rows also while rows bring new columns, as long as each row is aligned: cell (i, c)
      is what the i-th landing row put under c, or null, for early and late columns alike. */
  lemma {:induction false} AlignedRowsAreTranspose(cols: Cols, n: nat, ps: seq<Pass>)
    requires Even(cols, n) && n == Max(cols) && AllAligned(cols, n, ps)
    ensures EvenTable(cols, n, Landed(cols, ps), Added(cols, ps))
  {
    hide EvenTable, AllAligned, Aligned, Added, Landed, FillNulls, AppendIn, Silent, Lands;
    if ps == [] {
      NothingAdded(cols, n);
    } else {
      var init, p := ps[..|ps| - 1], ps[|ps| - 1];
      AlignedSoFar(cols, n, ps);
      AlignedRowsAreTranspose(cols, n, init);
      AddedNext(cols, ps);
      OneMoreRow(cols, n, Landed(cols, init), Added(cols, init), p.row, p.order);
    }
  }

  lemma NothingAdded(cols: Cols, n: nat)
    ensures Added(cols, []) == cols && Landed(cols, []) == []
    ensures Even(cols, n) && n == Max(cols) ==> EvenTable(cols, n, Landed(cols, []), Added(cols, []))
  {
    hide Max, Even, IsTable;
    TableNone(cols, n);
  }

  lemma AddedNext(cols: Cols, ps: seq<Pass>)
    requires ps != []
    ensures var init, p := ps[..|ps| - 1], ps[|ps| - 1];
      var t := Added(cols, init);
      && Added(cols, ps) == FillNulls(AppendIn(t, p.row, p.order))
      && Landed(cols, ps) == Landed(cols, init) + (if Silent(t, p.row) then [] else [Lands(t, p.row)])
  {
    hide FillNulls, AppendIn, Silent, Lands, Enumerates;
  }

  lemma AlignedSoFar(cols: Cols, n: nat, ps: seq<Pass>)
    requires ps != [] && AllAligned(cols, n, ps)
    ensures AllAligned(cols, n, ps[..|ps| - 1]) && AlignedAt(cols, n, ps, |ps| - 1)
  {
    hide Aligned, Added, Landed;
    var k := |ps| - 1;
    forall i | 0 <= i < k ensures AlignedAt(cols, n, ps[..k], i) {
      assert AlignedAt(cols, n, ps, i);
      assert ps[..k][..i] == ps[..i];
    }
  }

  // ---- rows that all bring the same new columns ----

  /** The columns a row starts. */
  function New(cols: Cols, row: Row): set<Name> {
    set c | c in row.values && IsValidName(c) && c !in cols && TypeIn(row, c) != Unsupported
  }

  /** Every row brings the same new columns, and none if there are rows already: so with columns made beforehand, and so
      with a file of one header. This can be told from the rows alone. */
  predicate Steady(cols: Cols, n: nat, rows: seq<Row>) {
    && (forall i, j :: 0 <= i < j < |rows| ==> New(cols, rows[i]) == New(cols, rows[j]))
    && (n > 0 ==> forall i :: 0 <= i < |rows| ==> New(cols, rows[i]) == {})
  }

  /** What lands of each row that lands at all, next to the columns there were at first. */
  ghost function LandRows(cols: Cols, rows: seq<Row>): seq<Landings> {
    if rows == [] then []
    else
      var k := |rows| - 1;
      LandRows(cols, rows[..k]) + (if Silent(cols, rows[k]) then [] else [Lands(cols, rows[k])])
  }

  lemma {:induction false} LandRowsMembers(cols: Cols, rows: seq<Row>)
    ensures forall i :: 0 <= i < |rows| && !Silent(cols, rows[i]) ==> Lands(cols, rows[i]) in LandRows(cols, rows)
    ensures forall m :: m in LandRows(cols, rows) ==> exists i :: 0 <= i < |rows| && m == Lands(cols, rows[i])
  {
    hide Silent, Lands;
    if rows != [] {
      var k := |rows| - 1;
      LandRowsMembers(cols, rows[..k]);
      forall i | 0 <= i < |rows| && !Silent(cols, rows[i]) ensures Lands(cols, rows[i]) in LandRows(cols, rows) {
        if i < k { assert rows[..k][i] == rows[i]; }
      }
      forall m | m in LandRows(cols, rows) ensures exists i :: 0 <= i < |rows| && m == Lands(cols, rows[i]) {
        if m in LandRows(cols, rows[..k]) {
          var i :| 0 <= i < k && m == Lands(cols, rows[..k][i]);
          assert m == Lands(cols, rows[i]);
        } else {
          assert m == Lands(cols, rows[k]);
        }
      }
    }
  }

  /** The later columns among what lands are the new columns of the rows. */
  lemma LandsNew(cols: Cols, rows: seq<Row>, c: Name)
    requires c !in cols
    ensures LandsSomewhere(LandRows(cols, rows), c) <==> exists j :: 0 <= j < |rows| && c in New(cols, rows[j])
  {
    hide LandRows, IsValidName, TypeIn;
    var landed := LandRows(cols, rows);
    LandRowsMembers(cols, rows);
    if LandsSomewhere(landed, c) {
      var i :| 0 <= i < |landed| && c in landed[i];
      assert landed[i] in landed;
      var j :| 0 <= j < |rows| && landed[i] == Lands(cols, rows[j]);
      assert c in New(cols, rows[j]);
    }
    if j :| 0 <= j < |rows| && c in New(cols, rows[j]) {
      assert Contributes(cols, rows[j], c);
      var i :| 0 <= i < |landed| && landed[i] == Lands(cols, rows[j]);
    }
  }

  /** A column that is new to all the rows is there after the first of them, and nothing else is. */
  lemma SteadyColumns(cols: Cols, n: nat, rows: seq<Row>, row: Row, t: Cols, c: Name)
    requires Steady(cols, n, rows + [row]) && IsTable(cols, n, LandRows(cols, rows), t)
    ensures Contributes(t, row, c) <==> Contributes(cols, row, c)
    ensures rows != [] && Contributes(cols, row, c) ==> c in t
  {
    hide IsValidName, LandRows, TypeIn, LandsSomewhere;
    assert IsTableAt(cols, n, LandRows(cols, rows), t, c);
    if c !in cols {
      LandsNew(cols, rows, c);
      SteadyNew(cols, n, rows, row);
      assert Contributes(cols, row, c) <==> c in New(cols, row);
      if rows != [] && c in New(cols, row) { assert c in New(cols, rows[0]); }
    }
  }

  lemma SteadyNew(cols: Cols, n: nat, rows: seq<Row>, row: Row)
    requires Steady(cols, n, rows + [row])
    ensures forall i :: 0 <= i < |rows| ==> New(cols, rows[i]) == New(cols, row)
    ensures n > 0 ==> New(cols, row) == {}
  {
    hide New;
    var all := rows + [row];
    assert all[|rows|] == row && forall i :: 0 <= i < |rows| ==> all[i] == rows[i];
  }

  /** Such rows are aligned in any map order, and what lands of them depends on the rows alone. */
  lemma {:induction false} SteadyRows(cols: Cols, n: nat, ps: seq<Pass>)
    requires Even(cols, n) && n == Max(cols) && Steady(cols, n, Rows(ps))
    ensures AllAligned(cols, n, ps) && Landed(cols, ps) == LandRows(cols, Rows(ps))
  {
    hide Max, Aligned, Added, Landed, FillNulls, AppendIn, Silent, Lands, Steady, Enumerates, EvenTable;
    if ps == [] {
      NothingAdded(cols, n);
    } else {
      var k := |ps| - 1;
      var init, p := ps[..k], ps[k];
      assert Rows(ps) == Rows(init) + [p.row] && Rows(ps)[..k] == Rows(init);
      SteadyPrefix(cols, n, Rows(init), p.row);
      SteadyRows(cols, n, init);
      AlignedRowsAreTranspose(cols, n, init);
      AddedNext(cols, ps);
      SteadyNext(cols, n, Rows(init), p.row, p.order, Added(cols, init));
      forall i | 0 <= i < |ps| ensures AlignedAt(cols, n, ps, i) {
        if i < k {
          assert AlignedAt(cols, n, init, i);
          assert init[..i] == ps[..i];
        }
      }
    }
  }

  lemma SteadyPrefix(cols: Cols, n: nat, rows: seq<Row>, row: Row)
    requires Steady(cols, n, rows + [row])
    ensures Steady(cols, n, rows)
  {
    hide New;
    assert forall i :: 0 <= i < |rows| ==> (rows + [row])[i] == rows[i];
  }

  lemma SteadyNext(cols: Cols, n: nat, rows: seq<Row>, row: Row, order: seq<Name>, t: Cols)
    requires Steady(cols, n, rows + [row]) && EvenTable(cols, n, LandRows(cols, rows), t) && Visits(order, row)
    ensures Aligned(t, n + |LandRows(cols, rows)|, row, order)
    ensures (Silent(t, row) <==> Silent(cols, row)) && Lands(t, row) == Lands(cols, row)
  {
    hide Max, Even, IsTable, LandRows, IsValidName, Steady;
    forall c
      ensures Contributes(t, row, c) <==> Contributes(cols, row, c)
      ensures rows != [] && Contributes(cols, row, c) ==> c in t
    {
      hide Contributes;
      SteadyColumns(cols, n, rows, row, t, c);
    }
    if rows != [] {
      PremadeAligned(t, n + |LandRows(cols, rows)|, row, order);
    } else if n > 0 {
      FirstIsPremade(cols, n, row, t);
      PremadeAligned(t, n + |LandRows(cols, rows)|, row, order);
    } else {
      NoRowsLand(cols);
    }
  }

  lemma NoRowsLand(cols: Cols) ensures LandRows(cols, []) == [] { }

  lemma FirstIsPremade(cols: Cols, n: nat, row: Row, t: Cols)
    requires n > 0 && Steady(cols, n, [] + [row]) && IsTable(cols, n, LandRows(cols, []), t)
    ensures Premade(t, row)
  {
    hide IsValidName, Steady;
    SteadyNew(cols, n, [], row);
    forall c ensures Contributes(t, row, c) ==> c in t {
      assert IsTableAt(cols, n, LandRows(cols, []), t, c);
      assert Contributes(t, row, c) ==> c in t || c in New(cols, row);
    }
  }

  /** So the columns are the transpose of the rows, in any map orders. */
  lemma SteadyRowsAreTranspose(cols: Cols, n: nat, ps: seq<Pass>)
    requires Even(cols, n) && n == Max(cols) && Steady(cols, n, Rows(ps))
    ensures EvenTable(cols, n, LandRows(cols, Rows(ps)), Added(cols, ps))
  {
    hide Max, Even, EvenTable, Steady, AllAligned, Landed, LandRows, Added;
    SteadyRows(cols, n, ps);
    AlignedRowsAreTranspose(cols, n, ps);
  }

  // ---- rows over columns made beforehand ----

  /** The rows that land anywhere. */
  ghost function Loud(cols: Cols, rows: seq<Row>): seq<Row> {
    if rows == [] then []
    else
      var k := |rows| - 1;
      Loud(cols, rows[..k]) + (if Silent(cols, rows[k]) then [] else [rows[k]])
  }

  /** The transpose of the rows, under the columns there were: row i of column c is row i's value for c, or null. */
  ghost function Transposed(cols: Cols, rows: seq<Row>): Cols {
    var loud := Loud(cols, rows);
    map c | c in cols ::
      Column(cols[c].kind, cols[c].cells + seq(|loud|, i requires 0 <= i < |loud| => ValueIn(loud[i], c)))
  }

  lemma {:induction false} LandRowsAreLoud(cols: Cols, rows: seq<Row>)
    ensures |LandRows(cols, rows)| == |Loud(cols, rows)|
    ensures forall i :: 0 <= i < |Loud(cols, rows)| ==> LandRows(cols, rows)[i] == Lands(cols, Loud(cols, rows)[i])
  {
    hide Silent, Lands;
    if rows != [] { LandRowsAreLoud(cols, rows[..|rows| - 1]); }
  }

  lemma PremadeIsSteady(cols: Cols, n: nat, rows: seq<Row>)
    requires forall i :: 0 <= i < |rows| ==> Premade(cols, rows[i])
    ensures Steady(cols, n, rows)
  {
    hide IsValidName;
    forall i | 0 <= i < |rows| ensures New(cols, rows[i]) == {} {
      PremadeHasNoNew(cols, rows[i]);
    }
  }

  lemma TransposedAt(cols: Cols, n: nat, rows: seq<Row>, after: Cols, c: Name)
    requires forall i :: 0 <= i < |rows| ==> Premade(cols, rows[i])
    requires IsTable(cols, n, LandRows(cols, rows), after)
    ensures (c in after <==> c in cols) && (c in cols ==> after[c] == Transposed(cols, rows)[c])
  {
    hide Loud, LandRows, IsValidName, LandsSomewhere, New, Steady;
    var landed := LandRows(cols, rows);
    assert IsTableAt(cols, n, landed, after, c);
    if c in cols {
      LandedValues(cols, rows, c);
    } else {
      LandsNew(cols, rows, c);
      forall j | 0 <= j < |rows| ensures c !in New(cols, rows[j]) { PremadeHasNoNew(cols, rows[j]); }
    }
  }

  lemma PremadeHasNoNew(cols: Cols, row: Row)
    requires Premade(cols, row)
    ensures New(cols, row) == {}
  {
    hide IsValidName;
    assert forall c :: c in New(cols, row) ==> Contributes(cols, row, c);
  }

  lemma LandedValues(cols: Cols, rows: seq<Row>, c: Name)
    requires c in cols
    ensures var loud := Loud(cols, rows);
      Under(LandRows(cols, rows), c) == seq(|loud|, i requires 0 <= i < |loud| => ValueIn(loud[i], c))
  {
    hide Loud, LandRows, IsValidName;
    LandRowsAreLoud(cols, rows);
  }

  /** Columns are the transpose of rows: over columns made beforehand, for any rows and any map orders. */
  lemma ColumnsAreTranspose(cols: Cols, n: nat, ps: seq<Pass>)
    requires Even(cols, n) && n == Max(cols) && forall i :: 0 <= i < |ps| ==> Premade(cols, ps[i].row)
    ensures Added(cols, ps) == Transposed(cols, Rows(ps))
    ensures Even(Added(cols, ps), n + |Loud(cols, Rows(ps))|)
  {
    hide Max, Even, Premade, Steady, Loud, LandRows, Added, IsTable;
    var rows, after := Rows(ps), Added(cols, ps);
    PremadeIsSteady(cols, n, rows);
    SteadyRowsAreTranspose(cols, n, ps);
    LandRowsAreLoud(cols, rows);
    forall c ensures (c in after <==> c in cols) && (c in cols ==> after[c] == Transposed(cols, rows)[c]) {
      hide Transposed;
      TransposedAt(cols, n, rows, after, c);
    }
  }

  // ---- how much a row adds ----

  /** What each column grows by: the value or null for an old one, its nulls and value for a new one. */
  ghost function GrowthIn(cols: Cols, n: nat, row: Row): Name -> nat {
    var after := WithRow(cols, n, row);
    c => if c in cols then CellSize(cols[c].kind, ValueIn(row, c)) else if c in after then ColumnSize(after[c]) else 0
  }

  lemma {:induction false} SetSumAdd(s: set<Name>, f: Name -> nat, g: Name -> nat, h: Name -> nat)
    requires forall x :: x in s ==> h(x) == f(x) + g(x)
    ensures SetSum(s, h) == SetSum(s, f) + SetSum(s, g)
    decreases |s|
  {
    if s != {} {
      var x :| x in s;
      SetSumRemove(s, x, f);
      SetSumRemove(s, x, g);
      SetSumRemove(s, x, h);
      SetSumAdd(s - {x}, f, g, h);
    }
  }

  lemma {:induction false} SetSumBeyond(s: set<Name>, more: set<Name>, f: Name -> nat)
    requires s <= more && forall x :: x in more && x !in s ==> f(x) == 0
    ensures SetSum(more, f) == SetSum(s, f)
    decreases |more|
  {
    if s == more {
    } else {
      var x :| x in more && x !in s;
      SetSumRemove(more, x, f);
      SetSumBeyond(s, more - {x}, f);
    }
  }

  /** A row grows the set by the sizes of its values and of the nulls beside and above them. */
  lemma RowGrows(cols: Cols, n: nat, row: Row)
    requires !Silent(cols, row)
    ensures var after := WithRow(cols, n, row);
      SetSize(after) == SetSize(cols) + SetSum(after.Keys, GrowthIn(cols, n, row))
  {
    hide SetSum, CellsSize, CellSize, IsValidName, Silent;
    var after := WithRow(cols, n, row);
    assert cols.Keys <= after.Keys;
    forall c | c in after.Keys ensures SizeIn(after)(c) == SizeIn(cols)(c) + GrowthIn(cols, n, row)(c) {
      if c in cols { OneMoreSize(cols[c].kind, cols[c].cells, ValueIn(row, c)); }
    }
    SetSumAdd(after.Keys, SizeIn(cols), GrowthIn(cols, n, row), SizeIn(after));
    SetSumBeyond(cols.Keys, after.Keys, SizeIn(cols));
  }
}

/** Schemas (typeof/schema.go): Compare, Except, Union and the sorted list of columns. */
module Schemas {
  import opened ByteStrings
  import opened ColumnData

  type Schema = map<Name, Type>

  predicate Clash(s: Schema, t: Schema) {
    exists c :: c in s && c in t && s[c] != t[c]
  }

  /** Every column of `t` is in `s` with the same type. */
  predicate Covers(s: Schema, t: Schema) {
    forall c :: c in t ==> c in s && s[c] == t[c]
  }

  /** Union: the combined schema, or the receiver unchanged and false on a type clash. */
  function Union(s: Schema, t: Schema): (r: (Schema, bool))
    ensures r.1 <==> !Clash(s, t)
    ensures r.1 ==> Covers(r.0, s) && Covers(r.0, t) && r.0.Keys == s.Keys + t.Keys
    ensures !r.1 ==> r.0 == s
  {
    if Clash(s, t) then (s, false) else (s + t, true)
  }

  /** The two loops of Union, in any map order. */
  method UnionOf(s: Schema, other: Schema) returns (combined: Schema, ok: bool)
    ensures (combined, ok) == Union(s, other)
  {
    hide Joined;
    combined := s;
    var rest := other.Keys;
    JoinEnds(s, other);
    while rest != {}
      invariant rest <= other.Keys && combined == Joined(s, other, rest)
      invariant forall c :: c in s && c in other && c !in rest ==> s[c] == other[c]
      decreases |rest|
    {
      var name :| name in rest;
      JoinNext(s, other, rest, name);
      if name in s && combined[name] != other[name] { return s, false; }
      combined := combined[name := other[name]];
      rest := rest - {name};
    }
    ok := true;
  }

  /** The union half-way: `rest` are the columns of the other schema still to come. */
  function Joined(s: Schema, other: Schema, rest: set<Name>): Schema {
    s + map c | c in other && c !in rest :: other[c]
  }

  lemma JoinNext(s: Schema, other: Schema, rest: set<Name>, name: Name)
    requires name in other && name in rest
    ensures Joined(s, other, rest)[name := other[name]] == Joined(s, other, rest - {name})
    ensures name in s ==> name in Joined(s, other, rest) && Joined(s, other, rest)[name] == s[name]
  {
  }

  lemma JoinEnds(s: Schema, other: Schema)
    ensures Joined(s, other, other.Keys) == s && Joined(s, other, {}) == s + other
  {
  }

  /** Compare: the desired columns the schema lacks or types differently; true when there are none. */
  function Misses(s: Schema, desired: Schema): (diff: Schema)
    ensures forall c :: c in diff <==> c in desired && (c !in s || s[c] != desired[c])
    ensures forall c :: c in diff ==> diff[c] == desired[c]
  {
    map c | c in desired && (c !in s || s[c] != desired[c]) :: desired[c]
  }

  method Compare(s: Schema, desired: Schema) returns (diff: Schema, ok: bool)
    ensures diff == Misses(s, desired)
    ensures ok <==> Covers(s, desired)
  {
    diff := map[];
    var rest := desired.Keys;
    while rest != {}
      invariant rest <= desired.Keys
      invariant forall c :: c in diff <==> c in desired.Keys - rest && (c !in s || s[c] != desired[c])
      invariant forall c :: c in diff ==> diff[c] == desired[c]
      decreases |rest|
    {
      var name :| name in rest;
      if name !in s || s[name] != desired[name] { diff := diff[name := desired[name]]; }
      rest := rest - {name};
    }
    assert diff == Misses(s, desired);
    ok := diff == map[];
    if !ok {
      var c :| c in diff;
    }
  }

  /** Except: the columns whose name the other schema does not have, whatever the types. */
  function Except(s: Schema, other: Schema): (r: Schema)
    ensures forall c :: c in r <==> c in s && c !in other
    ensures forall c :: c in r ==> r[c] == s[c]
  {
    map c | c in s && c !in other :: s[c]
  }

  /** The loop of Except, in any map order. */
  method ExceptOf(s: Schema, other: Schema) returns (r: Schema)
    ensures r == Except(s, other)
  {
    r := map[];
    var rest := s.Keys;
    while rest != {}
      invariant rest <= s.Keys
      invariant forall c :: c in r <==> c in s.Keys - rest && c !in other
      invariant forall c :: c in r ==> r[c] == s[c]
      decreases |rest|
    {
      var name :| name in rest;
      if name !in other { r := r[name := s[name]]; }
      rest := rest - {name};
    }
    assert r == Except(s, other);
  }

  /** What is left of a schema without its misses, and the misses, are disjoint and together cover what was desired; and
      nothing is missing if and only if the schema covers it alone. */
  lemma SplitByMisses(s: Schema, desired: Schema)
    ensures var misses := Misses(s, desired);
      var common := Except(s, misses);
      && Covers(s, common) && common.Keys !! misses.Keys
      && Union(common, misses).1 && Covers(Union(common, misses).0, desired)
      && (misses == map[] <==> Covers(s, desired))
  {
    var misses := Misses(s, desired);
    var common := Except(s, misses);
    var whole := Union(common, misses).0;
    forall c | c in desired ensures c in whole && whole[c] == desired[c] {
      if c in misses { assert Covers(whole, misses); } else { assert Covers(whole, common) && c in common; }
    }
    if misses != map[] {
      var c :| c in misses;
      assert !Covers(s, desired);
    }
  }

  // ---- Columns(): names in byte order ----

  predicate SortedNames(names: seq<Name>) {
    forall i, j :: 0 <= i < j < |names| ==> Less(names[i], names[j])
  }

  ghost predicate ListsColumns(names: seq<Name>, s: Schema) {
    SortedNames(names) && forall c :: c in names <==> c in s
  }

  function InsertName(names: seq<Name>, c: Name): (r: seq<Name>)
    requires SortedNames(names) && c !in names
    ensures SortedNames(r) && forall d :: d in r <==> d == c || d in names
  {
    if names == [] then [c]
    else if Leq(c, names[0]) then
      assert forall j :: 0 <= j < |names| ==> Less(c, names[j]) by {
        forall j | 0 <= j < |names| ensures Less(c, names[j]) {
          if j > 0 { LessTransitive(c, names[0], names[j]); }
        }
      }
      [c] + names
    else
      LessIsNotGeq(names[0], c);
      var tail := InsertName(names[1..], c);
      assert forall d :: d in tail ==> Less(names[0], d);
      [names[0]] + tail
  }

  method Columns(s: Schema) returns (names: seq<Name>)
    ensures ListsColumns(names, s)
  {
    names := [];
    var rest := s.Keys;
    while rest != {}
      invariant rest <= s.Keys && SortedNames(names)
      invariant forall c :: c in names <==> c in s.Keys - rest
      decreases |rest|
    {
      var c :| c in rest;
      names := InsertName(names, c);
      rest := rest - {c};
    }
  }

  /** The list does not depend on the order in which the map was visited. */
  lemma {:induction false} ColumnsUnique(a: seq<Name>, b: seq<Name>)
    requires SortedNames(a) && SortedNames(b) && forall c :: c in a <==> c in b
    ensures a == b
  {
    if |b| > 0 { assert b[0] in b; }
    if |a| > 0 { assert a[0] in a; }
    if a != [] {
      if a[0] != b[0] {
        var i :| 0 <= i < |b| && b[i] == a[0];
        var j :| 0 <= j < |a| && a[j] == b[0];
        LeqAntisymmetric(a[0], b[0]);
      }
      forall c ensures c in a[1..] <==> c in b[1..] {
        assert c in a[1..] <==> c in a && c != a[0] by { NotAgain(a, c); }
        assert c in b[1..] <==> c in b && c != b[0] by { NotAgain(b, c); }
      }
      ColumnsUnique(a[1..], b[1..]);
    }
  }

  lemma NotAgain(a: seq<Name>, c: Name)
    requires SortedNames(a) && a != []
    ensures c in a[1..] <==> c in a && c != a[0]
  {
    if c in a[1..] {
      var i :| 0 <= i < |a[1..]| && a[1..][i] == c;
      assert Less(a[0], a[i + 1]);
    }
  }
}

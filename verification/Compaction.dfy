/** The grouping scan of Compact (compact.go): sorted blocks are cut into runs to be merged together. */
module Compaction {
  import opened ByteStrings
  import opened Varints
  import opened Keys
  import opened Disk
  import opened ColumnData
  import opened Schemas

  /** A decoded block: what the scan looks at, and the rest. */
  datatype Block<+D> = Block(schema: Schema, data: D)

  /** A merge task's input: keys and blocks in parallel, and the schema to write them with. */
  datatype Group<+D> = Group(keys: seq<Bytes>, blocks: seq<Block<D>>, schema: Schema)

  /** The hash of a key; keys shorter than four bytes do not occur. */
  function HashAt(k: Bytes): nat { if |k| >= 4 then HashOf(k) else 0 }

  /** A key as key.New makes it for the hash `h`. */
  ghost predicate MadeWith(k: Bytes, h: Uint32) { exists s: Uint64, n: Uint32 :: k == KeyOf(h, s, n) }

  /** It is the hash the key was made with. */
  lemma HashAtMade(k: Bytes, h: Uint32)
    requires MadeWith(k, h)
    ensures HashAt(k) == h && |k| == 16
  {
    hide HashOf, KeyOf;
    var s: Uint64, n: Uint32 :| k == KeyOf(h, s, n);
    HashOfKey(h, s, n);
  }

  /** The variables the scan callback captures, and the groups queued so far. */
  datatype CompactState<+D> =
    CompactState(hash: nat, blocks: seq<Block<D>>, merged: seq<Bytes>, schema: Schema, queue: seq<Group<D>>)

  /** A stored buffer is None when FromBuffer fails on it. */
  type Stored<+D> = Option<Block<D>>

  /** The scan callback: (new state, stop). */
  function CompactStep<D>(st: CompactState<D>, k: Bytes, v: Stored<D>): (CompactState<D>, bool) {
    match v
    case None => (st, true)
    case Some(input) =>
      var hash := HashAt(k);
      var (union, ok) := Union(st.schema, input.schema);
      if st.hash == 0 || (ok && hash == st.hash) then
        (CompactState(hash, st.blocks + [input], st.merged + [k], union, st.queue), false)
      else
        (CompactState(hash, [input], [k], input.schema, st.queue + [Group(st.merged, st.blocks, st.schema)]), false)
  }

  function Start<D>(): CompactState<D> { CompactState(0, [], [], map[], []) }

  /** "Merge one last time if we still have blocks" */
  function Flush<D>(st: CompactState<D>): seq<Group<D>> {
    if |st.blocks| > 0 then st.queue + [Group(st.merged, st.blocks, st.schema)] else st.queue
  }

  /** The groups one Compact run queues for merging, or None when the buffer is closed. */
  method QueueOf<D(!new)>(buffer: Storage<Stored<D>>) returns (r: Option<seq<Group<D>>>)
    requires Sorted(buffer.entries)
    ensures r.None? <==> buffer.closed
    ensures r.Some? ==> r.value == GroupsOf(Decodable(Visible(buffer.entries, First(), Last())))
    ensures r.Some? ==> PrefixGrouped(Visible(buffer.entries, First(), Last()), r.value)
    ensures r.Some? ==> forall hashes :: MadeOf(Decodable(Visible(buffer.entries, First(), Last())), hashes) ==>
      ((forall i :: 0 <= i < |r.value| ==> SingleHash(r.value[i]))
       <==> (forall i :: 0 <= i < |hashes| - 1 && hashes[i] == 0 ==> hashes[i + 1] == 0))
  {
    hide Scan, Visible, CompactStep, GroupsOf, Flush, Decodable, MadeOf, SingleHash, PrefixGrouped;
    ghost var seen := Visible(buffer.entries, First(), Last());
    ghost var gs := GroupsOf(Decodable(seen));
    QueueIsGrouping(seen);
    PrefixIsGrouped(seen);
    forall hashes | MadeOf(Decodable(seen), hashes)
      ensures (forall i :: 0 <= i < |gs| ==> SingleHash(gs[i]))
         <==> (forall i :: 0 <= i < |hashes| - 1 && hashes[i] == 0 ==> hashes[i + 1] == 0)
    {
      OneHashIffMade(Decodable(seen), hashes);
    }
    var s := buffer.Range(First(), Last(), CompactStep, Start());
    if s.Closed? { return None; }
    return Some(Flush(s.value));
  }

  // ---- the grouping as a fold over the decodable prefix ----

  type Item<+D> = (Bytes, Block<D>)

  /** The blocks before the first corrupt one. */
  function Decodable<D>(items: seq<(Bytes, Stored<D>)>): seq<Item<D>> {
    if items == [] || items[0].1.None? then []
    else [(items[0].0, items[0].1.value)] + Decodable(items[1..])
  }

  predicate NonEmpty<D>(gs: seq<Group<D>>) {
    forall i :: 0 <= i < |gs| ==> |gs[i].keys| == |gs[i].blocks| > 0
  }

  function LastHash<D>(g: Group<D>): nat
    requires |g.keys| > 0
  {
    HashAt(g.keys[|g.keys| - 1])
  }

  /** Whether a block joins the current group. */
  predicate Joins<D>(g: Group<D>, it: Item<D>)
    requires |g.keys| > 0
  {
    LastHash(g) == 0 || (!Clash(g.schema, it.1.schema) && HashAt(it.0) == LastHash(g))
  }

  function Extend<D>(g: Group<D>, it: Item<D>): Group<D> {
    Group(g.keys + [it.0], g.blocks + [it.1], Union(g.schema, it.1.schema).0)
  }

  function Single<D>(it: Item<D>): Group<D> { Group([it.0], [it.1], it.1.schema) }

  function Grow<D>(gs: seq<Group<D>>, it: Item<D>): (r: seq<Group<D>>)
    requires NonEmpty(gs)
    ensures NonEmpty(r) && r != []
  {
    var n := |gs|;
    if n > 0 && Joins(gs[n - 1], it) then gs[..n - 1] + [Extend(gs[n - 1], it)] else gs + [Single(it)]
  }

  /** Cutting a list of blocks into groups. */
  function GroupsOf<D>(items: seq<Item<D>>): (gs: seq<Group<D>>)
    ensures NonEmpty(gs) && (gs == [] <==> items == [])
  {
    if items == [] then [] else Grow(GroupsOf(items[..|items| - 1]), items[|items| - 1])
  }

  function GrowAll<D>(gs: seq<Group<D>>, items: seq<Item<D>>): seq<Group<D>>
    requires NonEmpty(gs)
    decreases |items|
  {
    if items == [] then gs else GrowAll(Grow(gs, items[0]), items[1..])
  }

  lemma {:induction false} GrowAllIsGroups<D>(done: seq<Item<D>>, items: seq<Item<D>>)
    ensures GrowAll(GroupsOf(done), items) == GroupsOf(done + items)
    decreases |items|
  {
    hide Grow;
    if items == [] {
      assert done + items == done;
    } else {
      var done' := done + [items[0]];
      assert done'[..|done|] == done;
      GrowAllIsGroups(done', items[1..]);
      assert done' + items[1..] == done + items;
    }
  }

  /** The callback's variables always describe the groups so far. */
  ghost predicate Describes<D>(st: CompactState<D>, gs: seq<Group<D>>) {
    && NonEmpty(gs)
    && (gs == [] ==> st == Start())
    && (gs != [] ==>
         && st.queue == gs[..|gs| - 1]
         && Group(st.merged, st.blocks, st.schema) == gs[|gs| - 1]
         && st.hash == LastHash(gs[|gs| - 1]))
  }

  lemma StepGrows<D>(st: CompactState<D>, gs: seq<Group<D>>, k: Bytes, b: Block<D>)
    requires Describes(st, gs)
    ensures Describes(CompactStep(st, k, Some(b)).0, Grow(gs, (k, b))) && !CompactStep(st, k, Some(b)).1
  {
    hide Clash, HashAt;
    var st' := CompactStep(st, k, Some(b)).0;
    var gs' := Grow(gs, (k, b));
    if gs == [] {
      assert gs' == [Single((k, b))];
      assert Union(map[], b.schema).0 == b.schema by { UnionOfEmpty(b.schema); }
    } else {
      var g := gs[|gs| - 1];
      if Joins(g, (k, b)) {
        assert gs'[..|gs'| - 1] == gs[..|gs| - 1];
      } else {
        assert gs'[..|gs'| - 1] == gs;
        assert gs[..|gs| - 1] + [g] == gs;
      }
    }
  }

  lemma UnionOfEmpty(t: Schema)
    ensures Union(map[], t) == (t, true)
  {
    assert map[] + t == t;
  }

  lemma {:induction false} ScanDescribes<D(!new)>(items: seq<(Bytes, Stored<D>)>, st: CompactState<D>,
      gs: seq<Group<D>>)
    requires Describes(st, gs)
    ensures Describes(Scan(items, CompactStep, st), GrowAll(gs, Decodable(items)))
    decreases |items|
  {
    hide CompactStep, Describes, Grow;
    assert NonEmpty(gs) by { DescribesNonEmpty(st, gs); }
    if items != [] {
      var (k, v) := items[0];
      if v.None? {
        CorruptStops(st, k);
      } else {
        StepGrows(st, gs, k, v.value);
        var st' := CompactStep(st, k, v).0;
        ScanDescribes(items[1..], st', Grow(gs, (k, v.value)));
        assert Decodable(items)[1..] == Decodable(items[1..]);
      }
    }
  }

  lemma DescribesNonEmpty<D>(st: CompactState<D>, gs: seq<Group<D>>)
    requires Describes(st, gs)
    ensures NonEmpty(gs)
  {
  }

  lemma CorruptStops<D>(st: CompactState<D>, k: Bytes)
    ensures CompactStep(st, k, None) == (st, true)
  {
  }

  /** What Compact queues is the grouping of the longest decodable prefix of the sorted entries. */
  lemma QueueIsGrouping<D(!new)>(items: seq<(Bytes, Stored<D>)>)
    ensures Flush(Scan(items, CompactStep, Start())) == GroupsOf(Decodable(items))
  {
    hide Scan, CompactStep, Decodable, GrowAll;
    ScanDescribes(items, Start(), []);
    GrowAllIsGroups([], Decodable(items));
    assert [] + Decodable(items) == Decodable(items);
    var st, gs := Scan(items, CompactStep, Start()), GroupsOf(Decodable(items));
    if gs != [] { assert gs[..|gs| - 1] + [gs[|gs| - 1]] == gs; }
  }

  // ---- conservation ----

  function AllKeys<D>(gs: seq<Group<D>>): seq<Bytes> {
    if gs == [] then [] else AllKeys(gs[..|gs| - 1]) + gs[|gs| - 1].keys
  }

  function AllBlocks<D>(gs: seq<Group<D>>): seq<Block<D>> {
    if gs == [] then [] else AllBlocks(gs[..|gs| - 1]) + gs[|gs| - 1].blocks
  }

  function KeysOf<D>(items: seq<Item<D>>): (ks: seq<Bytes>)
    ensures |ks| == |items|
  {
    seq(|items|, i requires 0 <= i < |items| => items[i].0)
  }

  function BlocksOf<D>(items: seq<Item<D>>): (bs: seq<Block<D>>)
    ensures |bs| == |items|
  {
    seq(|items|, i requires 0 <= i < |items| => items[i].1)
  }

  lemma GrowConserves<D>(gs: seq<Group<D>>, it: Item<D>)
    requires NonEmpty(gs)
    ensures AllKeys(Grow(gs, it)) == AllKeys(gs) + [it.0]
    ensures AllBlocks(Grow(gs, it)) == AllBlocks(gs) + [it.1]
  {
    hide Joins, Union;
    var gs' := Grow(gs, it);
    var n := |gs|;
    if n > 0 && Joins(gs[n - 1], it) {
      assert gs'[..n - 1] == gs[..n - 1];
    } else {
      assert gs'[..n] == gs;
    }
  }

  /** The groups concatenate to exactly the blocks grouped, keys parallel to blocks. */
  lemma {:induction false} GroupsConserve<D>(items: seq<Item<D>>)
    ensures AllKeys(GroupsOf(items)) == KeysOf(items)
    ensures AllBlocks(GroupsOf(items)) == BlocksOf(items)
  {
    hide Grow;
    if items != [] {
      var n := |items| - 1;
      GroupsConserve(items[..n]);
      GrowConserves(GroupsOf(items[..n]), items[n]);
      assert KeysOf(items) == KeysOf(items[..n]) + [items[n].0];
      assert BlocksOf(items) == BlocksOf(items[..n]) + [items[n].1];
    }
  }

  /** What is grouped are the blocks before the first corrupt one: all of them, in order, keys beside their blocks. */
  ghost predicate PrefixGrouped<D(!new)>(seen: seq<(Bytes, Stored<D>)>, gs: seq<Group<D>>) {
    && |AllKeys(gs)| == |AllBlocks(gs)| <= |seen|
    && (forall i :: 0 <= i < |AllKeys(gs)| ==>
         AllKeys(gs)[i] == seen[i].0 && seen[i].1 == Some(AllBlocks(gs)[i]))
    && (|AllKeys(gs)| < |seen| ==> seen[|AllKeys(gs)|].1.None?)
  }

  lemma {:induction false} DecodableIs<D(!new)>(seen: seq<(Bytes, Stored<D>)>)
    ensures var items := Decodable(seen);
      && |items| <= |seen|
      && (forall i :: 0 <= i < |items| ==> seen[i].0 == items[i].0 && seen[i].1 == Some(items[i].1))
      && (|items| < |seen| ==> seen[|items|].1.None?)
  {
    if seen != [] && seen[0].1.Some? { DecodableIs(seen[1..]); }
  }

  lemma PrefixIsGrouped<D(!new)>(seen: seq<(Bytes, Stored<D>)>)
    ensures PrefixGrouped(seen, GroupsOf(Decodable(seen)))
  {
    hide GroupsOf, Decodable, AllKeys, AllBlocks;
    DecodableIs(seen);
    GroupsConserve(Decodable(seen));
  }

  // ---- one hash per group ----

  predicate OneHash<D>(g: Group<D>) {
    forall i, j :: 0 <= i < |g.keys| && 0 <= j < |g.keys| ==> HashAt(g.keys[i]) == HashAt(g.keys[j])
  }

  predicate AllOneHash<D>(gs: seq<Group<D>>) { forall i :: 0 <= i < |gs| ==> OneHash(gs[i]) }

  /** Hash 0 doubles as "no previous block": a block that follows one with hash 0 always joins it. */
  predicate ZeroRunContinues<D>(items: seq<Item<D>>) {
    forall i :: 0 <= i < |items| - 1 && HashAt(items[i].0) == 0 ==> HashAt(items[i + 1].0) == 0
  }

  lemma {:induction false} LastHashOfGroups<D>(items: seq<Item<D>>)
    requires items != []
    ensures var gs := GroupsOf(items); LastHash(gs[|gs| - 1]) == HashAt(items[|items| - 1].0)
  {
    hide Grow, HashAt;
    GrowLastHash(GroupsOf(items[..|items| - 1]), items[|items| - 1]);
  }

  lemma GrowLastHash<D>(gs: seq<Group<D>>, it: Item<D>)
    requires NonEmpty(gs)
    ensures var gs' := Grow(gs, it); LastHash(gs'[|gs'| - 1]) == HashAt(it.0)
  {
    hide Joins, Union, HashAt;
    var n := |gs|;
    if n > 0 && Joins(gs[n - 1], it) {
      assert Grow(gs, it)[n - 1] == Extend(gs[n - 1], it);
    } else {
      assert Grow(gs, it)[n] == Single(it);
    }
  }

  lemma GrowOneHash<D>(gs: seq<Group<D>>, it: Item<D>)
    requires NonEmpty(gs)
    ensures AllOneHash(Grow(gs, it))
       <==> AllOneHash(gs) && (gs != [] && LastHash(gs[|gs| - 1]) == 0 ==> HashAt(it.0) == 0)
  {
    hide HashAt, Union, Clash;
    var gs', n := Grow(gs, it), |gs|;
    if n > 0 && Joins(gs[n - 1], it) {
      var g, g' := gs[n - 1], gs'[n - 1];
      assert forall i :: 0 <= i < |g.keys| ==> g'.keys[i] == g.keys[i];
      assert OneHash(g') <==> OneHash(g) && HashAt(it.0) == LastHash(g) by {
        if OneHash(g') {
          assert HashAt(g'.keys[|g.keys|]) == HashAt(g'.keys[|g.keys| - 1]);
        }
      }
      assert forall i :: 0 <= i < n - 1 ==> gs'[i] == gs[i];
      if AllOneHash(gs') { assert OneHash(gs'[n - 1]); }
    } else {
      assert forall i :: 0 <= i < n ==> gs'[i] == gs[i];
      assert OneHash(gs'[n]);
    }
  }

  /** Every group has a single hash exactly when no block with hash 0 is followed by one with another hash. */
  lemma {:induction false} OneHashIff<D>(items: seq<Item<D>>)
    ensures AllOneHash(GroupsOf(items)) <==> ZeroRunContinues(items)
  {
    hide Grow, HashAt, OneHash, LastHash;
    if items != [] {
      var n := |items| - 1;
      var init := items[..n];
      OneHashIff(init);
      GrowOneHash(GroupsOf(init), items[n]);
      if n > 0 { LastHashOfGroups(init); }
      assert ZeroRunContinues(items)
        <==> ZeroRunContinues(init) && (n > 0 && HashAt(items[n - 1].0) == 0 ==> HashAt(items[n].0) == 0) by {
        assert forall i :: 0 <= i < n ==> init[i] == items[i];
        if ZeroRunContinues(items) && n > 0 && HashAt(items[n - 1].0) == 0 { assert HashAt(items[n - 1 + 1].0) == 0; }
      }
    }
  }

  // ---- in terms of the hashes the keys were made with ----

  ghost predicate MadeOf<D(!new)>(items: seq<Item<D>>, hashes: seq<Uint32>) {
    |hashes| == |items| && forall i :: 0 <= i < |items| ==> MadeWith(items[i].0, hashes[i])
  }

  /** A key of the group was made with this hash. */
  ghost predicate HasKeyOf<D>(g: Group<D>, h: Uint32) { exists k :: k in g.keys && MadeWith(k, h) }

  /** All keys of the group were made with one hash. */
  ghost predicate SingleHash<D(!new)>(g: Group<D>) {
    forall h, h' :: HasKeyOf(g, h) && HasKeyOf(g, h') ==> h == h'
  }

  lemma HashesAre<D(!new)>(items: seq<Item<D>>, hashes: seq<Uint32>)
    requires MadeOf(items, hashes)
    ensures forall i :: 0 <= i < |items| ==> HashAt(items[i].0) == hashes[i]
  {
    hide HashAt, MadeWith;
    forall i | 0 <= i < |items| ensures HashAt(items[i].0) == hashes[i] { HashAtMade(items[i].0, hashes[i]); }
  }

  /** Each block of a group is one of those grouped. */
  lemma {:induction false} GroupMembers<D(!new)>(items: seq<Item<D>>, i: nat, j: nat)
    requires i < |GroupsOf(items)| && j < |GroupsOf(items)[i].keys|
    ensures (GroupsOf(items)[i].keys[j], GroupsOf(items)[i].blocks[j]) in items
  {
    hide Joins, Union;
    if items != [] {
      var n := |items| - 1;
      var gs, it := GroupsOf(items[..n]), items[n];
      if i < |gs| && j < |gs[i].keys| { GroupMembers(items[..n], i, j); }
    }
  }

  /** A group has one hash exactly when all its keys were made with one. */
  lemma OneHashMade<D(!new)>(items: seq<Item<D>>, hashes: seq<Uint32>, i: nat)
    requires MadeOf(items, hashes) && i < |GroupsOf(items)|
    ensures OneHash(GroupsOf(items)[i]) <==> SingleHash(GroupsOf(items)[i])
  {
    hide HashAt, MadeWith, GroupsOf;
    var g := GroupsOf(items)[i];
    if OneHash(g) {
      forall h, h' | HasKeyOf(g, h) && HasKeyOf(g, h') ensures h == h' {
        var k, k' :| k in g.keys && k' in g.keys && MadeWith(k, h) && MadeWith(k', h');
        HashAtMade(k, h);
        HashAtMade(k', h');
        assert HashAt(k) == HashAt(k');
      }
    }
    if SingleHash(g) {
      forall a, b | 0 <= a < |g.keys| && 0 <= b < |g.keys| ensures HashAt(g.keys[a]) == HashAt(g.keys[b]) {
        var h := KeyHash(items, hashes, i, a);
        var h' := KeyHash(items, hashes, i, b);
        HashAtMade(g.keys[a], h);
        HashAtMade(g.keys[b], h');
        assert HasKeyOf(g, h) && HasKeyOf(g, h');
      }
    }
  }

  lemma KeyHash<D(!new)>(items: seq<Item<D>>, hashes: seq<Uint32>, i: nat, a: nat) returns (h: Uint32)
    requires MadeOf(items, hashes) && i < |GroupsOf(items)| && a < |GroupsOf(items)[i].keys|
    ensures MadeWith(GroupsOf(items)[i].keys[a], h)
  {
    hide MadeWith, GroupsOf;
    GroupMembers(items, i, a);
    var x :| 0 <= x < |items| && items[x] == (GroupsOf(items)[i].keys[a], GroupsOf(items)[i].blocks[a]);
    h := hashes[x];
  }

  /** Of blocks under keys made with these hashes: every group holds keys made with a single hash if and only if no
      hash 0 is followed by another. */
  lemma OneHashIffMade<D(!new)>(items: seq<Item<D>>, hashes: seq<Uint32>)
    requires MadeOf(items, hashes)
    ensures (forall i :: 0 <= i < |GroupsOf(items)| ==> SingleHash(GroupsOf(items)[i]))
       <==> (forall i :: 0 <= i < |hashes| - 1 && hashes[i] == 0 ==> hashes[i + 1] == 0)
  {
    hide HashAt, GroupsOf, OneHash, SingleHash;
    OneHashIff(items);
    HashesAre(items, hashes);
    var gs := GroupsOf(items);
    forall i | 0 <= i < |gs| ensures OneHash(gs[i]) <==> SingleHash(gs[i]) { OneHashMade(items, hashes, i); }
    assert ZeroRunContinues(items) <==> forall i :: 0 <= i < |hashes| - 1 && hashes[i] == 0 ==> hashes[i + 1] == 0;
  }

  /** Without hash 0, the blocks of two event names of different hashes are never in one group. */
  lemma HashesApart<D(!new)>(items: seq<Item<D>>, hashes: seq<Uint32>, i: nat, h: Uint32, h': Uint32)
    requires MadeOf(items, hashes) && 0 !in hashes && i < |GroupsOf(items)| && h != h'
    ensures !(HasKeyOf(GroupsOf(items)[i], h) && HasKeyOf(GroupsOf(items)[i], h'))
  {
    hide GroupsOf, HasKeyOf, MadeOf;
    OneHashIffMade(items, hashes);
  }

  /** In key order: if and only if no key was made with hash 0, or all were. */
  lemma OneHashIffMadeSorted<D(!new)>(items: seq<Item<D>>, hashes: seq<Uint32>)
    requires MadeOf(items, hashes) && forall i, j :: 0 <= i < j < |items| ==> Less(items[i].0, items[j].0)
    ensures (forall i :: 0 <= i < |GroupsOf(items)| ==> SingleHash(GroupsOf(items)[i]))
       <==> 0 !in hashes || (forall i :: 0 <= i < |hashes| ==> hashes[i] == 0)
  {
    hide HashAt, GroupsOf, SingleHash, Less;
    OneHashIffMade(items, hashes);
    OneHashIff(items);
    HashesAre(items, hashes);
    forall i | 0 <= i < |items| ensures |items[i].0| == 16 { HashAtMade(items[i].0, hashes[i]); }
    OneHashIffSorted(items);
    assert ZeroRunContinues(items) <==> forall i :: 0 <= i < |hashes| - 1 && hashes[i] == 0 ==> hashes[i + 1] == 0;
  }

  /** The smallest case: a block of hash 0 takes any next block into its group, whatever its hash and schema. */
  lemma ZeroHashMixes<D>(a: Item<D>, b: Item<D>)
    requires HashAt(a.0) == 0
    ensures GroupsOf([a, b]) == [Group([a.0, b.0], [a.1, b.1], Union(a.1.schema, b.1.schema).0)]
  {
    hide HashAt, Union;
    assert [a, b][..1] == [a] && [a][..0] == [];
    assert GroupsOf([a]) == [Single(a)];
    assert Joins(Single(a), b) && [Single(a)][..0] == [];
    assert Extend(Single(a), b) == Group([a.0, b.0], [a.1, b.1], Union(a.1.schema, b.1.schema).0);
  }

  lemma SortedHashes(a: Bytes, b: Bytes)
    requires Leq(a, b) && |a| == |b| == 16
    ensures HashAt(a) <= HashAt(b)
  {
    LeqOfPrefix(a, b, 4);
    FromBigEndianOrder(a[..4], b[..4]);
  }

  lemma {:induction false} LeqOfPrefix(a: Bytes, b: Bytes, n: nat)
    requires Leq(a, b) && n <= |a| && n <= |b|
    ensures Leq(a[..n], b[..n])
  {
    if n > 0 && a[0] == b[0] {
      LeqOfPrefix(a[1..], b[1..], n - 1);
      assert a[..n][1..] == a[1..][..n - 1] && b[..n][1..] == b[1..][..n - 1];
    }
  }

  lemma {:induction false} LeqFromEnd(a: Bytes, b: Bytes)
    requires |a| == |b| > 0
    ensures var n := |a| - 1;
      Leq(a, b) ==> Leq(a[..n], b[..n]) && (a[..n] == b[..n] ==> a[n] <= b[n])
  {
    var n := |a| - 1;
    if Leq(a, b) {
      LeqOfPrefix(a, b, n);
      if a[..n] == b[..n] && n > 0 {
        assert a[..n][1..] == a[1..][..n - 1] && b[..n][1..] == b[1..][..n - 1];
        assert a[0] == a[..n][0] && b[0] == b[..n][0];
        LeqFromEnd(a[1..], b[1..]);
      }
    }
  }

  lemma {:induction false} FromBigEndianOrder(a: Bytes, b: Bytes)
    requires |a| == |b| && Leq(a, b)
    ensures FromBigEndian(a) <= FromBigEndian(b)
    ensures a != b ==> FromBigEndian(a) < FromBigEndian(b)
  {
    if a != [] {
      var n := |a| - 1;
      LeqFromEnd(a, b);
      FromBigEndianOrder(a[..n], b[..n]);
      assert a == a[..n] + [a[n]] && b == b[..n] + [b[n]];
    }
  }

  predicate SortedItems<D>(items: seq<Item<D>>) {
    && (forall i :: 0 <= i < |items| ==> |items[i].0| == 16)
    && (forall i, j :: 0 <= i < j < |items| ==> Less(items[i].0, items[j].0))
  }

  /** In key order: every group has a single hash exactly when no hash is 0, or all are. */
  lemma OneHashIffSorted<D>(items: seq<Item<D>>)
    requires SortedItems(items)
    ensures AllOneHash(GroupsOf(items))
       <==> || (forall i :: 0 <= i < |items| ==> HashAt(items[i].0) != 0)
            || (forall i :: 0 <= i < |items| ==> HashAt(items[i].0) == 0)
  {
    hide HashAt, GroupsOf, AllOneHash, Leq;
    OneHashIff(items);
    if items != [] {
      forall i | 0 <= i < |items| ensures HashAt(items[0].0) <= HashAt(items[i].0) {
        if i > 0 { SortedHashes(items[0].0, items[i].0); }
      }
      if ZeroRunContinues(items) && HashAt(items[0].0) == 0 {
        ZeroesToTheEnd(items, |items|);
      }
    }
  }

  lemma {:induction false} ZeroesToTheEnd<D>(items: seq<Item<D>>, n: nat)
    requires ZeroRunContinues(items) && items != [] && HashAt(items[0].0) == 0 && n <= |items|
    ensures forall i :: 0 <= i < n ==> HashAt(items[i].0) == 0
  {
    hide HashAt;
    if n > 1 {
      ZeroesToTheEnd(items, n - 1);
      var i := n - 2;
      assert HashAt(items[i].0) == 0;
      assert HashAt(items[i + 1].0) == 0;
    }
  }

  // ---- the schema of a group ----

  predicate CoversAll<D>(g: Group<D>) {
    forall i :: 0 <= i < |g.blocks| ==> Covers(g.schema, g.blocks[i].schema)
  }

  predicate HasClash<D>(g: Group<D>) {
    exists i :: 0 <= i < |g.blocks| && Clash(g.schema, g.blocks[i].schema)
  }

  /** Every column of the group's schema comes from one of its blocks. */
  predicate NoForeign<D>(g: Group<D>) {
    forall c :: c in g.schema ==>
      exists i :: 0 <= i < |g.blocks| && c in g.blocks[i].schema && g.blocks[i].schema[c] == g.schema[c]
  }

  predicate SchemaFacts<D>(g: Group<D>) { NoForeign(g) && (CoversAll(g) || HasClash(g)) }

  predicate AllCover<D>(gs: seq<Group<D>>) { forall i :: 0 <= i < |gs| ==> CoversAll(gs[i]) }

  /** With the whole of a group covered, a block clashes with the group exactly when it clashes with one of its
      blocks. */
  lemma ClashWithSome<D>(g: Group<D>, t: Schema)
    requires CoversAll(g) && NoForeign(g)
    ensures Clash(g.schema, t) <==> exists i :: 0 <= i < |g.blocks| && Clash(g.blocks[i].schema, t)
  {
    if Clash(g.schema, t) {
      var c :| c in g.schema && c in t && g.schema[c] != t[c];
      var i :| 0 <= i < |g.blocks| && c in g.blocks[i].schema && g.blocks[i].schema[c] == g.schema[c];
      assert Clash(g.blocks[i].schema, t);
    }
    if i :| 0 <= i < |g.blocks| && Clash(g.blocks[i].schema, t) {
      assert Covers(g.schema, g.blocks[i].schema);
      var c :| c in g.blocks[i].schema && c in t && g.blocks[i].schema[c] != t[c];
      assert c in g.schema;
    }
  }

  lemma ExtendNoForeign<D>(g: Group<D>, it: Item<D>)
    requires NoForeign(g)
    ensures NoForeign(Extend(g, it))
  {
    var g' := Extend(g, it);
    var n := |g.blocks|;
    forall c | c in g'.schema
      ensures exists i :: 0 <= i < |g'.blocks| && c in g'.blocks[i].schema && g'.blocks[i].schema[c] == g'.schema[c]
    {
      if c in g.schema {
        var i :| 0 <= i < n && c in g.blocks[i].schema && g.blocks[i].schema[c] == g.schema[c];
        assert g'.blocks[i] == g.blocks[i];
      } else {
        assert g'.blocks[n] == it.1;
      }
    }
  }

  /** A clash, once in a group, stays; a covered group stays covered exactly when the next block does not clash. */
  lemma ExtendCovers<D>(g: Group<D>, it: Item<D>)
    requires SchemaFacts(g)
    ensures SchemaFacts(Extend(g, it))
    ensures CoversAll(Extend(g, it)) <==> CoversAll(g) && !Clash(g.schema, it.1.schema)
  {
    hide NoForeign;
    ExtendNoForeign(g, it);
    var g', n := Extend(g, it), |g.blocks|;
    assert g'.blocks[n] == it.1;
    assert forall i :: 0 <= i < n ==> g'.blocks[i] == g.blocks[i];
    if HasClash(g) {
      var i :| 0 <= i < n && Clash(g.schema, g.blocks[i].schema);
      assert Covers(g'.schema, g.schema);
      assert Clash(g'.schema, g'.blocks[i].schema) by { ClashGrows(g.schema, g'.schema, g.blocks[i].schema); }
      ClashNotCovered(g', i);
      ClashNotCovered(g, i);
    } else if Clash(g.schema, it.1.schema) {
      ClashNotCovered(g', n);
    } else {
      forall i | 0 <= i < |g'.blocks| ensures Covers(g'.schema, g'.blocks[i].schema) {
        if i < n { assert Covers(g.schema, g.blocks[i].schema); }
      }
    }
  }

  lemma ClashGrows(s: Schema, s': Schema, t: Schema)
    requires Clash(s, t) && Covers(s', s)
    ensures Clash(s', t)
  {
    var c :| c in s && c in t && s[c] != t[c];
    assert c in s';
  }

  lemma ClashNotCovered<D>(g: Group<D>, i: nat)
    requires i < |g.blocks| && Clash(g.schema, g.blocks[i].schema)
    ensures !CoversAll(g) && HasClash(g)
  {
    var c :| c in g.schema && c in g.blocks[i].schema && g.schema[c] != g.blocks[i].schema[c];
    assert !Covers(g.schema, g.blocks[i].schema);
  }

  predicate AllFacts<D>(gs: seq<Group<D>>) { forall i :: 0 <= i < |gs| ==> SchemaFacts(gs[i]) }

  lemma GrowFacts<D>(gs: seq<Group<D>>, it: Item<D>)
    requires NonEmpty(gs) && AllFacts(gs)
    ensures AllFacts(Grow(gs, it))
  {
    hide SchemaFacts, Joins, Extend, Single;
    SingleFacts(it);
    var gs', n := Grow(gs, it), |gs|;
    if n > 0 { ExtendCovers(gs[n - 1], it); }
    forall i | 0 <= i < |gs'| ensures SchemaFacts(gs'[i]) {
      if i < n && gs'[i] == gs[i] { assert SchemaFacts(gs[i]); }
    }
  }

  lemma {:induction false} GroupsSchemaFacts<D>(items: seq<Item<D>>)
    ensures AllFacts(GroupsOf(items))
  {
    hide Grow, SchemaFacts;
    if items != [] {
      var n := |items| - 1;
      GroupsSchemaFacts(items[..n]);
      GrowFacts(GroupsOf(items[..n]), items[n]);
    }
  }

  lemma SingleFacts<D>(it: Item<D>)
    ensures SchemaFacts(Single(it)) && CoversAll(Single(it))
  {
    assert Single(it).blocks[0] == it.1;
  }

  predicate Zeroes<D>(items: seq<Item<D>>, i: nat, j: nat)
    requires i <= j <= |items|
  {
    forall k :: i <= k < j ==> HashAt(items[k].0) == 0
  }

  /** Blocks of a run of hash 0, and the block right after it, do not clash pairwise. */
  predicate ZeroRunCompatible<D>(items: seq<Item<D>>) {
    forall i, j :: 0 <= i < j < |items| && Zeroes(items, i, j) ==> !Clash(items[i].1.schema, items[j].1.schema)
  }

  /** `g` holds exactly the run of hash 0 that ends the list. */
  ghost predicate ZeroRunAtEnd<D>(items: seq<Item<D>>, g: Group<D>) {
    var from := |items| - |g.blocks|;
    && 0 <= from < |items| && Zeroes(items, from, |items|)
    && (from > 0 ==> HashAt(items[from - 1].0) != 0)
    && forall k :: 0 <= k < |g.blocks| ==> g.blocks[k] == items[from + k].1
  }

  lemma RunOfOne<D>(items: seq<Item<D>>)
    requires items != [] && HashAt(items[|items| - 1].0) == 0
    requires |items| > 1 ==> HashAt(items[|items| - 2].0) != 0
    ensures ZeroRunAtEnd(items, Single(items[|items| - 1]))
  {
    hide HashAt;
  }

  lemma RunExtended<D>(items: seq<Item<D>>, g: Group<D>)
    requires |items| > 1 && HashAt(items[|items| - 1].0) == 0
    requires ZeroRunAtEnd(items[..|items| - 1], g)
    ensures ZeroRunAtEnd(items, Extend(g, items[|items| - 1]))
  {
    hide HashAt, Union;
    var n := |items| - 1;
    var g', from := Extend(g, items[n]), n - |g.blocks|;
    assert forall k :: 0 <= k < n ==> items[..n][k] == items[k];
    forall k | from <= k < |items| ensures HashAt(items[k].0) == 0 {
      if k < n { assert HashAt(items[..n][k].0) == 0; }
    }
    forall k | 0 <= k < |g'.blocks| ensures g'.blocks[k] == items[from + k].1 {
      if k < |g.blocks| { assert g.blocks[k] == items[..n][from + k].1; }
    }
  }

  /** While the last hash is 0, the last group is exactly the run of hash 0 at the end. */
  lemma {:induction false} LastGroupIsZeroRun<D>(items: seq<Item<D>>)
    requires items != [] && HashAt(items[|items| - 1].0) == 0
    ensures var gs := GroupsOf(items); ZeroRunAtEnd(items, gs[|gs| - 1])
  {
    hide HashAt, Clash, Extend, Single, ZeroRunAtEnd;
    var n := |items| - 1;
    var init, it := items[..n], items[n];
    if n > 0 {
      LastHashOfGroups(init);
      assert init[n - 1] == items[n - 1];
      if HashAt(items[n - 1].0) == 0 {
        LastGroupIsZeroRun(init);
        RunExtended(items, GroupsOf(init)[|GroupsOf(init)| - 1]);
      } else {
        RunOfOne(items);
      }
    } else {
      RunOfOne(items);
    }
  }

  lemma GrowCovers<D>(gs: seq<Group<D>>, it: Item<D>)
    requires NonEmpty(gs) && AllFacts(gs)
    ensures AllCover(Grow(gs, it))
       <==> AllCover(gs) && (gs != [] && LastHash(gs[|gs| - 1]) == 0 ==> !Clash(gs[|gs| - 1].schema, it.1.schema))
  {
    hide SchemaFacts, CoversAll, Extend, LastHash, Clash, HashAt;
    var gs', n := Grow(gs, it), |gs|;
    SingleFacts(it);
    if n > 0 { ExtendCovers(gs[n - 1], it); }
    if n > 0 && Joins(gs[n - 1], it) {
      assert forall i :: 0 <= i < n - 1 ==> gs'[i] == gs[i];
      assert gs'[n - 1] == Extend(gs[n - 1], it);
      if AllCover(gs') { assert CoversAll(gs'[n - 1]); }
    } else {
      assert forall i :: 0 <= i < n ==> gs'[i] == gs[i];
      assert gs'[n] == Single(it);
    }
  }

  /** Every group is written with a schema that covers all its blocks exactly when no clash hides in a run of hash 0. */
  lemma {:induction false} CoverIff<D>(items: seq<Item<D>>)
    ensures AllCover(GroupsOf(items)) <==> ZeroRunCompatible(items)
  {
    hide Grow, SchemaFacts, CoversAll, HashAt, Clash, Zeroes, LastHash, ZeroRunAtEnd, LastCompatible, ZeroRunCompatible;
    if items != [] {
      var n := |items| - 1;
      var init, it := items[..n], items[n];
      var gs := GroupsOf(init);
      CoverIff(init);
      GroupsSchemaFacts(init);
      GrowCovers(gs, it);
      CompatibleStep(items);
      if n > 0 {
        LastHashOfGroups(init);
        if HashAt(items[n - 1].0) == 0 {
          LastGroupIsZeroRun(init);
          if AllCover(gs) { ClashWithRun(items, gs[|gs| - 1]); }
        } else {
          NoZeroRun(items);
        }
      } else {
        FewAreCompatible(items);
      }
    } else {
      FewAreCompatible(items);
    }
  }

  lemma FewAreCompatible<D>(items: seq<Item<D>>)
    requires |items| <= 1
    ensures ZeroRunCompatible(items) && (|items| == 1 ==> LastCompatible(items))
  {
  }

  predicate LastCompatible<D>(items: seq<Item<D>>)
    requires items != []
  {
    var n := |items| - 1;
    forall i :: 0 <= i < n && Zeroes(items, i, n) ==> !Clash(items[i].1.schema, items[n].1.schema)
  }

  lemma CompatibleStep<D>(items: seq<Item<D>>)
    requires items != []
    ensures ZeroRunCompatible(items) <==> ZeroRunCompatible(items[..|items| - 1]) && LastCompatible(items)
  {
    hide Clash, HashAt;
    var n := |items| - 1;
    var init := items[..n];
    forall i, j | 0 <= i < j < n ensures Zeroes(init, i, j) <==> Zeroes(items, i, j) {
      assert forall k :: 0 <= k < n ==> init[k] == items[k];
    }
    if ZeroRunCompatible(items) {
      forall i, j | 0 <= i < j < n && Zeroes(init, i, j) ensures !Clash(init[i].1.schema, init[j].1.schema) {
        assert init[i] == items[i] && init[j] == items[j];
      }
    }
    if ZeroRunCompatible(init) && LastCompatible(items) {
      forall i, j | 0 <= i < j < |items| && Zeroes(items, i, j) ensures !Clash(items[i].1.schema, items[j].1.schema) {
        if j < n { assert init[i] == items[i] && init[j] == items[j]; }
      }
    }
  }

  lemma NoZeroRun<D>(items: seq<Item<D>>)
    requires |items| > 1 && HashAt(items[|items| - 2].0) != 0
    ensures LastCompatible(items)
  {
    hide Clash, HashAt;
    var n := |items| - 1;
    forall i | 0 <= i < n ensures !Zeroes(items, i, n) {
      assert HashAt(items[n - 1].0) != 0;
    }
  }

  lemma ClashWithRun<D>(items: seq<Item<D>>, g: Group<D>)
    requires |items| > 1 && CoversAll(g) && SchemaFacts(g)
    requires ZeroRunAtEnd(items[..|items| - 1], g)
    ensures LastCompatible(items) <==> !Clash(g.schema, items[|items| - 1].1.schema)
  {
    hide Clash, HashAt, CoversAll;
    var n := |items| - 1;
    var from, t := n - |g.blocks|, items[n].1.schema;
    ClashWithSome(g, t);
    assert forall k :: 0 <= k < n ==> items[..n][k] == items[k];
    forall i | 0 <= i < n ensures Zeroes(items, i, n) <==> i >= from {
      if i < from { assert HashAt(items[from - 1].0) != 0; }
      if i >= from { assert forall k :: i <= k < n ==> HashAt(items[..n][k].0) == 0; }
    }
    if LastCompatible(items) {
      forall k | 0 <= k < |g.blocks| ensures !Clash(g.blocks[k].schema, t) {
        assert !Clash(items[from + k].1.schema, t);
      }
    }
    if !Clash(g.schema, t) {
      forall i | 0 <= i < n && Zeroes(items, i, n) ensures !Clash(items[i].1.schema, t) {
        assert g.blocks[i - from] == items[i].1;
      }
    }
  }

  // ---- cuts are only made where needed ----

  /** Why the group after `g` did not join it. */
  predicate Justified<D>(g: Group<D>, next: Group<D>)
    requires |g.keys| > 0 && |next.keys| > 0 && |next.blocks| > 0
  {
    LastHash(g) != 0 && (HashAt(next.keys[0]) != LastHash(g) || Clash(g.schema, next.blocks[0].schema))
  }

  /** Grouping is greedy: two neighbouring groups are apart only for a hash change or a type clash. */
  lemma {:induction false} CutsJustified<D>(items: seq<Item<D>>, i: nat)
    requires i + 1 < |GroupsOf(items)|
    ensures Justified(GroupsOf(items)[i], GroupsOf(items)[i + 1])
  {
    hide HashAt, Clash, Union;
    if items != [] {
      var n := |items| - 1;
      var gs, it := GroupsOf(items[..n]), items[n];
      if i + 1 < |gs| { CutsJustified(items[..n], i); }
    }
  }
}

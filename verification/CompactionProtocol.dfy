/** Compaction as a step system: appends, overlapping Compact runs, and their concurrent write-then-delete tasks. */
module CompactionProtocol {
  import opened ByteStrings
  import opened Keys
  import opened Disk
  import opened Schemas
  import opened Compaction

  datatype Phase = Queued | Deleting(rest: seq<Bytes>) | Finished

  datatype Task<+D> = Task(keys: seq<Bytes>, blocks: seq<Block<D>>, phase: Phase)

  /** A key and the block appended under it; None is a block that cannot be decoded. */
  type Appended<+D> = (Bytes, Stored<D>)

  /** `appended` remembers every append; `written` every block handed to a WriteBlock that succeeded. */
  datatype State<D> = State(
    buffer: seq<Entry<Stored<D>>>,
    appended: seq<Appended<D>>,
    tasks: seq<Task<D>>,
    written: seq<Item<D>>)

  datatype Step<D> =
    | Append(key: Bytes, value: Stored<D>)
    | Begin(snapshot: seq<Entry<Stored<D>>>)   // a Compact run scans its snapshot and queues its tasks
    | Write(task: nat, ok: bool)               // WriteBlock returns
    | Delete(task: nat, count: nat)            // one transaction of Delete commits
    | DeleteFails(task: nat)

  /** A scan sees the buffer as it was, except for values that could not be fetched. */
  ghost predicate SnapshotOf<D(!new)>(snapshot: seq<Entry<Stored<D>>>, buffer: seq<Entry<Stored<D>>>) {
    |snapshot| == |buffer| && forall i :: 0 <= i < |buffer| ==>
      snapshot[i].key == buffer[i].key && (snapshot[i].value == buffer[i].value || snapshot[i].value.None?)
  }

  /** What a run merges: the decodable prefix of what it scans. */
  function Scanned<D(!new)>(snapshot: seq<Entry<Stored<D>>>): seq<Item<D>> {
    Decodable(Visible(snapshot, First(), Last()))
  }

  function TasksOf<D>(gs: seq<Group<D>>): (ts: seq<Task<D>>)
    ensures |ts| == |gs|
  {
    seq(|gs|, i requires 0 <= i < |gs| => Task(gs[i].keys, gs[i].blocks, Queued))
  }

  function Pairs<D>(t: Task<D>): seq<Item<D>>
  {
    if |t.keys| == |t.blocks| then seq(|t.keys|, i requires 0 <= i < |t.keys| => (t.keys[i], t.blocks[i])) else []
  }

  ghost predicate Takes<D(!new)>(s: State<D>, step: Step<D>, s': State<D>) {
    match step
    case Append(k, v) =>
      && Sorted(s.buffer)
      && s' == s.(buffer := Insert(s.buffer, k, v), appended := s.appended + [(k, v)])
    case Begin(snapshot) =>
      && SnapshotOf(snapshot, s.buffer)
      && s' == s.(tasks := s.tasks + TasksOf(GroupsOf(Scanned(snapshot))))
    case Write(i, ok) =>
      && i < |s.tasks| && s.tasks[i].phase.Queued?
      && var t := s.tasks[i];
         if ok then s' == s.(written := s.written + Pairs(t), tasks := s.tasks[i := t.(phase := Deleting(t.keys))])
         else s' == s.(tasks := s.tasks[i := t.(phase := Finished)])
    case Delete(i, n) =>
      && i < |s.tasks| && s.tasks[i].phase.Deleting? && n <= |s.tasks[i].phase.rest|
      && var t := s.tasks[i];
         var rest := t.phase.rest[n..];
         s' == s.(buffer := Remove(s.buffer, t.phase.rest[..n]),
                  tasks := s.tasks[i := t.(phase := if rest == [] then Finished else Deleting(rest))])
    case DeleteFails(i) =>
      && i < |s.tasks| && s.tasks[i].phase.Deleting?
      && s' == s.(tasks := s.tasks[i := s.tasks[i].(phase := Finished)])
  }

  // ---- when an append is harmless ----

  /** A task that has not deleted `k` yet. */
  predicate Owes<D>(t: Task<D>, k: Bytes) {
    match t.phase
    case Queued => k in t.keys
    case Deleting(rest) => k in rest
    case Finished => false
  }

  /** A task that writes just this block under `k` before it deletes it. */
  ghost predicate Carries<D>(t: Task<D>, k: Bytes, v: Stored<D>) { v.Some? && (k, v.value) in Pairs(t) }

  ghost predicate IsWritten<D>(s: State<D>, k: Bytes, v: Stored<D>) { v.Some? && (k, v.value) in s.written }

  /** No task is about to delete the block `v` under `k` without its having been written. */
  ghost predicate Unthreatened<D>(s: State<D>, k: Bytes, v: Stored<D>) {
    forall i :: 0 <= i < |s.tasks| && Owes(s.tasks[i], k) ==> Carries(s.tasks[i], k, v) || IsWritten(s, k, v)
  }

  /** The append replaces no other unwritten block, and no task is about to delete the new one unwritten. */
  ghost predicate Harmless<D(!new)>(s: State<D>, k: Bytes, v: Stored<D>) {
    && (forall w :: Entry(k, Some(w)) in s.buffer ==> w == v || IsWritten(s, k, w))
    && Unthreatened(s, k, v)
  }

  ghost predicate Allowed<D(!new)>(s: State<D>, step: Step<D>) { step.Append? ==> Harmless(s, step.key, step.value) }

  ghost predicate Initial<D>(s: State<D>) { s == State([], [], [], []) }

  /** A run of the system from a given state: `states` is one longer than `steps`. */
  ghost predicate RunFrom<D(!new)>(s: State<D>, states: seq<State<D>>, steps: seq<Step<D>>) {
    && |states| == |steps| + 1 && states[0] == s
    && forall i :: 0 <= i < |steps| ==> Takes(states[i], steps[i], states[i + 1]) && Allowed(states[i], steps[i])
  }

  ghost predicate Behaviour<D(!new)>(states: seq<State<D>>, steps: seq<Step<D>>) {
    |states| > 0 && Initial(states[0]) && RunFrom(states[0], states, steps)
  }

  // ---- no block is lost ----

  ghost predicate Kept<D>(s: State<D>, k: Bytes, v: Stored<D>) { Entry(k, Some(v)) in s.buffer || IsWritten(s, k, v) }

  /** Every block ever appended is still in the buffer or was in a WriteBlock that succeeded. */
  ghost predicate Lossless<D(!new)>(s: State<D>) { forall a :: a in s.appended ==> Kept(s, a.0, a.1) }

  ghost predicate TaskValid<D(!new)>(s: State<D>, t: Task<D>) {
    && |t.keys| == |t.blocks|
    && (forall j :: 0 <= j < |t.keys| ==> (t.keys[j], Some(t.blocks[j])) in s.appended)
    && (t.phase.Deleting? ==>
         && (forall it :: it in Pairs(t) ==> it in s.written)
         && (forall k :: k in t.phase.rest ==> k in t.keys))
  }

  ghost predicate BufferValid<D(!new)>(s: State<D>) {
    && Sorted(s.buffer)
    && forall e :: e in s.buffer ==>
         e.value.Some? && (e.key, e.value.value) in s.appended && Unthreatened(s, e.key, e.value.value)
  }

  ghost predicate TasksValid<D(!new)>(s: State<D>) { forall i :: 0 <= i < |s.tasks| ==> TaskValid(s, s.tasks[i]) }

  ghost predicate Inv<D(!new)>(s: State<D>) { BufferValid(s) && TasksValid(s) && Lossless(s) }

  lemma {:induction false} DecodableMembers<D(!new)>(items: seq<(Bytes, Stored<D>)>, it: Item<D>)
    requires it in Decodable(items)
    ensures (it.0, Some(it.1)) in items
  {
    if items != [] && items[0].1.Some? && it != (items[0].0, items[0].1.value) {
      DecodableMembers(items[1..], it);
    }
  }

  lemma {:induction false} VisibleMembers<V(!new)>(es: seq<Entry<V>>, seek: Bytes, until: Bytes, it: (Bytes, V))
    requires it in Visible(es, seek, until)
    ensures Entry(it.0, Some(it.1)) in es
  {
    hide Leq;
    if es != [] {
      if it in Visible(es[1..], seek, until) { VisibleMembers(es[1..], seek, until, it); }
    }
  }

  lemma ScannedMembers<D(!new)>(s: State<D>, snapshot: seq<Entry<Stored<D>>>, it: Item<D>)
    requires BufferValid(s) && SnapshotOf(snapshot, s.buffer) && it in Scanned(snapshot)
    ensures Entry(it.0, Some(Some(it.1))) in s.buffer && (it.0, Some(it.1)) in s.appended
  {
    hide Visible, Decodable, Sorted, Unthreatened;
    DecodableMembers(Visible(snapshot, First(), Last()), it);
    VisibleMembers(snapshot, First(), Last(), (it.0, Some(it.1)));
    var i :| 0 <= i < |snapshot| && snapshot[i] == Entry(it.0, Some(Some(it.1)));
    assert s.buffer[i] in s.buffer;
  }

  /** A sorted buffer has one entry per key. */
  lemma OneEntry<V(!new)>(es: seq<Entry<V>>, a: Entry<V>, b: Entry<V>)
    requires Sorted(es) && a in es && b in es && a.key == b.key
    ensures a == b
  {
    hide Leq;
    var i :| 0 <= i < |es| && es[i] == a;
    var j :| 0 <= j < |es| && es[j] == b;
  }

  function AfterAppend<D(!new)>(s: State<D>, k: Bytes, v: Stored<D>): State<D>
    requires Sorted(s.buffer)
  {
    s.(buffer := Insert(s.buffer, k, v), appended := s.appended + [(k, v)])
  }

  lemma AppendKeepsInv<D(!new)>(s: State<D>, k: Bytes, v: Stored<D>)
    requires Inv(s) && Harmless(s, k, v)
    ensures Inv(AfterAppend(s, k, v))
  {
    hide Sorted, Pairs, Owes;
    var s' := AfterAppend(s, k, v);
    forall i | 0 <= i < |s'.tasks| ensures TaskValid(s', s'.tasks[i]) { assert TaskValid(s, s.tasks[i]); }
    forall e | e in s'.buffer
      ensures e.value.Some? && (e.key, e.value.value) in s'.appended && Unthreatened(s', e.key, e.value.value)
    {
      if e.key == k {
        assert e == Entry(k, Some(v)) && s'.appended[|s.appended|] == (k, v);
        assert Unthreatened(s, k, v);
      } else {
        assert Unthreatened(s, e.key, e.value.value);
      }
    }
    forall a | a in s'.appended ensures Kept(s', a.0, a.1) {
      assert a in s.appended || a == (k, v);
      if a in s.appended { assert Kept(s, a.0, a.1); }
    }
  }

  /** The blocks a run queues are those the buffer holds. */
  lemma QueuedFromBuffer<D(!new)>(s: State<D>, snapshot: seq<Entry<Stored<D>>>, i: nat)
    requires BufferValid(s) && SnapshotOf(snapshot, s.buffer) && i < |GroupsOf(Scanned(snapshot))|
    ensures var t := TasksOf(GroupsOf(Scanned(snapshot)))[i];
      && TaskValid(s, t)
      && forall e :: e in s.buffer && e.value.Some? && Owes(t, e.key) ==> Carries(t, e.key, e.value.value)
  {
    hide Sorted, Scanned, SnapshotOf, GroupsOf, BufferValid;
    var items := Scanned(snapshot);
    var g, t := GroupsOf(items)[i], TasksOf(GroupsOf(items))[i];
    assert Sorted(s.buffer) by { BufferSorted(s); }
    forall j | 0 <= j < |g.keys|
      ensures (g.keys[j], Some(g.blocks[j])) in s.appended && Entry(g.keys[j], Some(Some(g.blocks[j]))) in s.buffer
    {
      GroupMembers(items, i, j);
      ScannedMembers(s, snapshot, (g.keys[j], g.blocks[j]));
    }
    forall e | e in s.buffer && e.value.Some? && Owes(t, e.key) ensures Carries(t, e.key, e.value.value) {
      var j :| 0 <= j < |t.keys| && t.keys[j] == e.key;
      OneEntry(s.buffer, e, Entry(g.keys[j], Some(Some(g.blocks[j]))));
      assert Pairs(t)[j] == (e.key, e.value.value.value);
    }
  }

  lemma BufferSorted<D(!new)>(s: State<D>)
    requires BufferValid(s)
    ensures Sorted(s.buffer)
  {
  }

  lemma BeginKeepsInv<D(!new)>(s: State<D>, snapshot: seq<Entry<Stored<D>>>, s': State<D>)
    requires Inv(s) && Takes(s, Begin(snapshot), s')
    ensures Inv(s')
  {
    hide Sorted, Scanned, SnapshotOf, GroupsOf, Owes, Carries, Pairs;
    var gs := GroupsOf(Scanned(snapshot));
    forall i | 0 <= i < |s'.tasks| ensures TaskValid(s', s'.tasks[i]) {
      if i < |s.tasks| { assert TaskValid(s, s.tasks[i]); } else { QueuedFromBuffer(s, snapshot, i - |s.tasks|); }
    }
    forall e | e in s'.buffer ensures Unthreatened(s', e.key, e.value.value) {
      assert Unthreatened(s, e.key, e.value.value);
      forall i | 0 <= i < |s'.tasks| && Owes(s'.tasks[i], e.key)
        ensures Carries(s'.tasks[i], e.key, e.value.value) || IsWritten(s', e.key, e.value.value)
      {
        if i >= |s.tasks| { QueuedFromBuffer(s, snapshot, i - |s.tasks|); }
      }
    }
    forall a | a in s'.appended ensures Kept(s', a.0, a.1) { assert Kept(s, a.0, a.1); }
  }

  lemma WriteKeepsInv<D(!new)>(s: State<D>, i: nat, ok: bool, s': State<D>)
    requires Inv(s) && Takes(s, Write(i, ok), s')
    ensures Inv(s')
  {
    hide Sorted;
    var t := s.tasks[i];
    assert TaskValid(s, t);
    assert Pairs(s'.tasks[i]) == Pairs(t);
    forall j | 0 <= j < |s'.tasks| ensures TaskValid(s', s'.tasks[j]) {
      hide Pairs;
      assert TaskValid(s, s.tasks[j]);
    }
    forall e | e in s'.buffer ensures Unthreatened(s', e.key, e.value.value) {
      hide Pairs;
      assert Unthreatened(s, e.key, e.value.value);
    }
    forall a | a in s'.appended ensures Kept(s', a.0, a.1) { assert Kept(s, a.0, a.1); }
  }

  lemma DeleteKeepsInv<D(!new)>(s: State<D>, i: nat, n: nat, s': State<D>)
    requires Inv(s) && Takes(s, Delete(i, n), s')
    ensures Inv(s')
  {
    var t := s.tasks[i];
    assert TaskValid(s, t);
    var gone := t.phase.rest[..n];
    RemoveKeepsOrder(s.buffer, gone);
    hide Sorted;
    assert Pairs(s'.tasks[i]) == Pairs(t);
    hide Pairs;
    forall j | 0 <= j < |s'.tasks| ensures TaskValid(s', s'.tasks[j]) { assert TaskValid(s, s.tasks[j]); }
    forall e | e in s'.buffer ensures Unthreatened(s', e.key, e.value.value) {
      assert Unthreatened(s, e.key, e.value.value);
    }
    forall a | a in s'.appended ensures Kept(s', a.0, a.1) {
      assert Kept(s, a.0, a.1);
      var e := Entry(a.0, Some(a.1));
      if e in s.buffer && a.0 in gone {
        assert Owes(t, a.0);
        assert Unthreatened(s, e.key, e.value.value);
      }
    }
  }

  lemma DeleteFailsKeepsInv<D(!new)>(s: State<D>, i: nat, s': State<D>)
    requires Inv(s) && Takes(s, DeleteFails(i), s')
    ensures Inv(s')
  {
    hide Sorted, Pairs;
    forall j | 0 <= j < |s'.tasks| ensures TaskValid(s', s'.tasks[j]) { assert TaskValid(s, s.tasks[j]); }
    forall e | e in s'.buffer ensures Unthreatened(s', e.key, e.value.value) {
      assert Unthreatened(s, e.key, e.value.value);
    }
    forall a | a in s'.appended ensures Kept(s', a.0, a.1) { assert Kept(s, a.0, a.1); }
  }

  lemma StepKeepsInv<D(!new)>(s: State<D>, step: Step<D>, s': State<D>)
    requires Inv(s) && Takes(s, step, s') && Allowed(s, step)
    ensures Inv(s')
  {
    match step
    case Append(k, v) =>
      hide Inv, Harmless;
      AppendKeepsInv(s, k, v);
    case Begin(snapshot) =>
      hide Inv, Takes;
      BeginKeepsInv(s, snapshot, s');
    case Write(i, ok) =>
      hide Inv, Takes;
      WriteKeepsInv(s, i, ok, s');
    case Delete(i, n) =>
      hide Inv, Takes;
      DeleteKeepsInv(s, i, n, s');
    case DeleteFails(i) =>
      hide Inv, Takes;
      DeleteFailsKeepsInv(s, i, s');
  }

  lemma {:induction false} InvAlong<D(!new)>(s: State<D>, states: seq<State<D>>, steps: seq<Step<D>>, n: nat)
    requires Inv(s) && RunFrom(s, states, steps) && n < |states|
    ensures Inv(states[n])
  {
    hide Inv, Takes, Allowed;
    if n > 0 {
      InvAlong(s, states, steps, n - 1);
      StepKeepsInv(states[n - 1], steps[n - 1], states[n]);
    }
  }

  lemma ReachableInv<D(!new)>(states: seq<State<D>>, steps: seq<Step<D>>, n: nat)
    requires Behaviour(states, steps) && n < |states|
    ensures Inv(states[n])
  {
    assert Inv(states[0]) by { hide RunFrom; }
    hide Inv, RunFrom;
    InvAlong(states[0], states, steps, n);
  }

  /** In every reachable state, each block ever appended is still in the buffer or was in a WriteBlock that succeeded:
      whatever runs overlap, writes fail, and deletes stop half-way, as long as every append was harmless. */
  lemma NoBlockLost<D(!new)>(states: seq<State<D>>, steps: seq<Step<D>>, n: nat, k: Bytes, v: Stored<D>)
    requires Behaviour(states, steps) && n < |states| && (k, v) in states[n].appended
    ensures || Entry(k, Some(v)) in states[n].buffer
            || (v.Some? && (k, v.value) in states[n].written)
  {
    hide Behaviour;
    ReachableInv(states, steps, n);
    assert Kept(states[n], k, v);
  }

  // ---- exactly which appends are safe ----

  predicate Known<D>(appended: seq<Appended<D>>, k: Bytes) { exists i :: 0 <= i < |appended| && appended[i].0 == k }

  /** A key never used before, as key.New provides within a process. */
  predicate Fresh<D>(s: State<D>, step: Step<D>) { step.Append? ==> !Known(s.appended, step.key) }

  lemma FreshIsHarmless<D(!new)>(s: State<D>, k: Bytes, v: Stored<D>)
    requires Inv(s) && !Known(s.appended, k)
    ensures Harmless(s, k, v)
  {
    hide Sorted, Pairs, Unthreatened, Lossless;
    forall e | e in s.buffer ensures Known(s.appended, e.key) { MemberKnown(s.appended, (e.key, e.value.value)); }
    assert Unthreatened(s, k, v) by { NobodyOwes(s, k, v); }
  }

  lemma NobodyOwes<D(!new)>(s: State<D>, k: Bytes, v: Stored<D>)
    requires TasksValid(s) && !Known(s.appended, k)
    ensures Unthreatened(s, k, v)
  {
    hide Pairs;
    forall i | 0 <= i < |s.tasks| ensures !Owes(s.tasks[i], k) {
      var t := s.tasks[i];
      assert TaskValid(s, t);
      forall j | 0 <= j < |t.keys| ensures Known(s.appended, t.keys[j]) {
        MemberKnown(s.appended, (t.keys[j], Some(t.blocks[j])));
      }
    }
  }

  lemma MemberKnown<D(!new)>(appended: seq<Appended<D>>, a: Appended<D>)
    requires a in appended
    ensures Known(appended, a.0)
  {
  }

  ghost predicate FreshBehaviour<D(!new)>(states: seq<State<D>>, steps: seq<Step<D>>) {
    && |states| == |steps| + 1 && Initial(states[0])
    && forall i :: 0 <= i < |steps| ==> Takes(states[i], steps[i], states[i + 1]) && Fresh(states[i], steps[i])
  }

  lemma {:induction false} FreshInv<D(!new)>(states: seq<State<D>>, steps: seq<Step<D>>, n: nat)
    requires FreshBehaviour(states, steps) && n < |states|
    ensures Inv(states[n]) && (n < |steps| ==> Allowed(states[n], steps[n]))
  {
    if n == 0 {
      assert Inv(states[0]) by { hide Takes, Fresh; }
    }
    hide Inv, Takes, Harmless;
    if n > 0 {
      FreshInv(states, steps, n - 1);
      StepKeepsInv(states[n - 1], steps[n - 1], states[n]);
    }
    if n < |steps| && steps[n].Append? { FreshIsHarmless(states[n], steps[n].key, steps[n].value); }
  }

  /** With fresh keys every append is harmless, so no block is lost. */
  lemma FreshKeysLoseNothing<D(!new)>(states: seq<State<D>>, steps: seq<Step<D>>, n: nat)
    requires FreshBehaviour(states, steps) && n < |states|
    ensures Behaviour(states, steps) && Lossless(states[n])
  {
    hide Takes, Allowed, Harmless, Lossless, BufferValid, TasksValid, Fresh;
    forall i | 0 <= i < |steps| ensures Allowed(states[i], steps[i]) { FreshInv(states, steps, i); }
    FreshInv(states, steps, n);
  }

  /** The append loses an unwritten block at once. */
  lemma OverwriteLoses<D(!new)>(s: State<D>, k: Bytes, v: Stored<D>, w: Stored<D>)
    requires Inv(s) && Entry(k, Some(w)) in s.buffer && w != v && !IsWritten(s, k, w)
    ensures !Lossless(AfterAppend(s, k, v))
  {
    hide Sorted, TasksValid;
    var s' := AfterAppend(s, k, v);
    assert (k, w) in s.appended;
    assert s'.appended[..|s.appended|] == s.appended;
    assert !Kept(s', k, w);
  }

  /** What a task does next when nothing fails. */
  function Onward<D(!new)>(s: State<D>, i: nat): State<D>
    requires i < |s.tasks|
  {
    var t := s.tasks[i];
    match t.phase
    case Queued => s.(written := s.written + Pairs(t), tasks := s.tasks[i := t.(phase := Deleting(t.keys))])
    case Deleting(rest) =>
      s.(buffer := Remove(s.buffer, rest), tasks := s.tasks[i := t.(phase := Finished)])
    case Finished => s
  }

  function OnwardStep<D>(s: State<D>, i: nat): Step<D>
    requires i < |s.tasks|
  {
    if s.tasks[i].phase.Deleting? then Delete(i, |s.tasks[i].phase.rest|) else Write(i, true)
  }

  lemma OnwardTakes<D(!new)>(s: State<D>, i: nat)
    requires i < |s.tasks| && !s.tasks[i].phase.Finished?
    ensures Takes(s, OnwardStep(s, i), Onward(s, i)) && Allowed(s, OnwardStep(s, i))
  {
    hide Pairs, Remove;
    var t := s.tasks[i];
    if t.phase.Deleting? {
      assert t.phase.rest[..|t.phase.rest|] == t.phase.rest && t.phase.rest[|t.phase.rest|..] == [];
    }
  }

  /** The run in which that task goes on to its end. */
  function ToTheEnd<D(!new)>(s: State<D>, i: nat): (seq<State<D>>, seq<Step<D>>)
    requires i < |s.tasks|
  {
    var s1 := Onward(s, i);
    if s.tasks[i].phase.Deleting? then ([s, s1], [OnwardStep(s, i)])
    else ([s, s1, Onward(s1, i)], [OnwardStep(s, i), OnwardStep(s1, i)])
  }

  lemma ThreatLoses<D(!new)>(s: State<D>, i: nat, k: Bytes, v: Stored<D>)
    requires (k, v) in s.appended && i < |s.tasks| && Owes(s.tasks[i], k)
    requires !Carries(s.tasks[i], k, v) && !IsWritten(s, k, v)
    ensures var (states, steps) := ToTheEnd(s, i);
      RunFrom(s, states, steps) && !Lossless(states[|steps|])
  {
    hide Takes, Allowed, Pairs;
    OnwardTakes(s, i);
    var s1 := Onward(s, i);
    if s.tasks[i].phase.Deleting? {
      assert !Kept(s1, k, v);
    } else {
      OnwardTakes(s1, i);
      assert !Kept(Onward(s1, i), k, v);
    }
  }

  /** An append that is not harmless has a continuation, without further appends or failures, that loses a block. */
  lemma HarmfulLoses<D(!new)>(s: State<D>, k: Bytes, v: Stored<D>) returns (states: seq<State<D>>, steps: seq<Step<D>>)
    requires Inv(s) && !Harmless(s, k, v)
    ensures RunFrom(AfterAppend(s, k, v), states, steps) && !Lossless(states[|steps|])
  {
    hide Takes, Allowed, Lossless, Carries, IsWritten, Owes, Sorted;
    var s' := AfterAppend(s, k, v);
    if w :| Entry(k, Some(w)) in s.buffer && w != v && !IsWritten(s, k, w) {
      OverwriteLoses(s, k, v, w);
      states, steps := [s'], [];
    } else {
      var i :| 0 <= i < |s.tasks| && Owes(s.tasks[i], k) && !Carries(s.tasks[i], k, v) && !IsWritten(s, k, v);
      assert s'.appended[|s.appended|] == (k, v);
      assert !IsWritten(s', k, v) by { SameWritten(s, s', k, v); }
      ThreatLoses(s', i, k, v);
      states, steps := ToTheEnd(s', i).0, ToTheEnd(s', i).1;
    }
  }

  lemma SameWritten<D(!new)>(s: State<D>, s': State<D>, k: Bytes, v: Stored<D>)
    requires s'.written == s.written
    ensures IsWritten(s', k, v) <==> IsWritten(s, k, v)
  {
  }

  /** An append is safe, whatever happens afterwards, if and only if it is harmless: it replaces no other unwritten
      block, and every task still to delete the key writes that very block first, or it is written already. */
  lemma SafeIffHarmless<D(!new)>(s: State<D>, k: Bytes, v: Stored<D>)
    requires Inv(s)
    ensures Harmless(s, k, v)
       <==> forall states, steps :: RunFrom(AfterAppend(s, k, v), states, steps) ==> Lossless(states[|steps|])
  {
    hide Takes, Allowed, Lossless, Harmless, TasksValid;
    if Harmless(s, k, v) {
      forall states, steps | RunFrom(AfterAppend(s, k, v), states, steps) ensures Lossless(states[|steps|]) {
        SafeAfter(s, k, v, states, steps);
      }
    } else {
      var states, steps := HarmfulLoses(s, k, v);
    }
  }

  lemma SafeAfter<D(!new)>(s: State<D>, k: Bytes, v: Stored<D>, states: seq<State<D>>, steps: seq<Step<D>>)
    requires Inv(s) && Harmless(s, k, v) && RunFrom(AfterAppend(s, k, v), states, steps)
    ensures Lossless(states[|steps|])
  {
    hide Takes, Allowed, Harmless, Lossless, BufferValid, TasksValid, AfterAppend;
    BufferSorted(s);
    AppendKeepsInv(s, k, v);
    InvAlong(AfterAppend(s, k, v), states, steps, |steps|);
  }

  // ---- a lone run without failures ----

  ghost predicate Quiet<D(!new)>(s: State<D>) {
    forall i :: 0 <= i < |s.tasks| ==> s.tasks[i].phase.Finished?
  }

  predicate Smooth<D>(step: Step<D>) { step.Append? || (step.Write? && step.ok) || step.Delete? }

  /** From a quiet state: one Compact run, then only appends, successful writes and successful deletes. */
  ghost predicate LoneRun<D(!new)>(states: seq<State<D>>, steps: seq<Step<D>>) {
    && |states| == |steps| + 1 && |steps| > 0
    && Inv(states[0]) && Quiet(states[0]) && steps[0].Begin?
    && forall i :: 0 <= i < |steps| ==>
         Takes(states[i], steps[i], states[i + 1]) && Fresh(states[i], steps[i]) && (i > 0 ==> Smooth(steps[i]))
  }

  function QueuedPart<D>(t: Task<D>): seq<Item<D>> { if t.phase.Queued? then Pairs(t) else [] }

  /** The blocks still to be written. */
  ghost function ToWrite<D>(ts: seq<Task<D>>): multiset<Item<D>> {
    if ts == [] then multiset{} else ToWrite(ts[..|ts| - 1]) + multiset(QueuedPart(ts[|ts| - 1]))
  }

  lemma {:induction false} ToWriteUpdate<D(!new)>(ts: seq<Task<D>>, i: nat, t: Task<D>)
    requires i < |ts|
    ensures ToWrite(ts[i := t]) + multiset(QueuedPart(ts[i])) == ToWrite(ts) + multiset(QueuedPart(t))
    decreases |ts|
  {
    hide QueuedPart;
    var n := |ts| - 1;
    if i < n {
      assert ts[i := t][..n] == ts[..n][i := t];
      ToWriteUpdate(ts[..n], i, t);
      var last, p, q := multiset(QueuedPart(ts[n])), multiset(QueuedPart(ts[i])), multiset(QueuedPart(t));
      assert ToWrite(ts[i := t]) + p == (ToWrite(ts[..n][i := t]) + p) + last;
      assert ToWrite(ts) + q == (ToWrite(ts[..n]) + q) + last;
    } else {
      assert ts[i := t][..n] == ts[..n];
    }
  }

  lemma ToWriteUnchanged<D(!new)>(ts: seq<Task<D>>, i: nat, t: Task<D>)
    requires i < |ts| && !ts[i].phase.Queued? && !t.phase.Queued?
    ensures ToWrite(ts[i := t]) == ToWrite(ts)
  {
    hide ToWrite;
    ToWriteUpdate(ts, i, t);
    assert ToWrite(ts) + multiset{} == ToWrite(ts) && ToWrite(ts[i := t]) + multiset{} == ToWrite(ts[i := t]);
  }

  lemma {:induction false} ToWriteQuiet<D(!new)>(a: seq<Task<D>>)
    requires forall i :: 0 <= i < |a| ==> a[i].phase.Finished?
    ensures ToWrite(a) == multiset{}
  {
    if a != [] { ToWriteQuiet(a[..|a| - 1]); }
  }

  lemma {:induction false} ToWriteConcat<D(!new)>(a: seq<Task<D>>, b: seq<Task<D>>)
    ensures ToWrite(a + b) == ToWrite(a) + ToWrite(b)
    decreases |b|
  {
    hide QueuedPart;
    if b == [] {
      assert a + b == a;
    } else {
      var n := |b| - 1;
      assert (a + b)[..|a + b| - 1] == a + b[..n];
      ToWriteConcat(a, b[..n]);
    }
  }

  function TaskOf<D>(g: Group<D>): Task<D> { Task(g.keys, g.blocks, Queued) }

  lemma ToWriteSnoc<D(!new)>(gs: seq<Group<D>>, g: Group<D>)
    ensures ToWrite(TasksOf(gs + [g])) == ToWrite(TasksOf(gs)) + multiset(Pairs(TaskOf(g)))
  {
    hide Pairs;
    var ts := TasksOf(gs + [g]);
    assert ts[..|gs|] == TasksOf(gs) && ts[|gs|] == TaskOf(g);
  }

  lemma ToWriteGrow<D(!new)>(gs: seq<Group<D>>, it: Item<D>)
    requires NonEmpty(gs)
    ensures ToWrite(TasksOf(Grow(gs, it))) == ToWrite(TasksOf(gs)) + multiset{it}
  {
    hide Joins, Union, ToWrite, TasksOf;
    var n := |gs|;
    if n > 0 && Joins(gs[n - 1], it) {
      var g := gs[n - 1];
      assert gs == gs[..n - 1] + [g];
      ToWriteSnoc(gs[..n - 1], g);
      ToWriteSnoc(gs[..n - 1], Extend(g, it));
      assert Pairs(TaskOf(Extend(g, it))) == Pairs(TaskOf(g)) + [it];
    } else {
      ToWriteSnoc(gs, Single(it));
      assert Pairs(TaskOf(Single(it))) == [it];
    }
  }

  /** Together, the merges of a run hold each scanned block exactly once. */
  lemma {:induction false} ToWriteOfGroups<D(!new)>(items: seq<Item<D>>)
    ensures ToWrite(TasksOf(GroupsOf(items))) == multiset(items)
  {
    hide Grow, ToWrite;
    if items == [] {
      ToWriteQuiet(TasksOf(GroupsOf(items)));
    } else {
      var n := |items| - 1;
      ToWriteOfGroups(items[..n]);
      ToWriteGrow(GroupsOf(items[..n]), items[n]);
      assert items == items[..n] + [items[n]];
    }
  }

  ghost predicate HasKey<D(!new)>(es: seq<Entry<Stored<D>>>, k: Bytes) {
    exists e :: e in es && e.key == k
  }

  ghost predicate Pending<D(!new)>(ts: seq<Task<D>>, k: Bytes) {
    exists i :: 0 <= i < |ts| && Owes(ts[i], k)
  }

  /** Where a lone run stands, against the state it began from and the blocks it scanned. */
  ghost predicate Midway<D(!new)>(b: State<D>, items: seq<Item<D>>, s: State<D>) {
    && Inv(s)
    && (forall k :: Known(b.appended, k) ==> Known(s.appended, k))
    && (forall k :: k in KeysOf(items) ==> Known(b.appended, k))
    && multiset(s.written) + ToWrite(s.tasks) == multiset(b.written) + multiset(items)
    && (forall i, k :: 0 <= i < |s.tasks| && Owes(s.tasks[i], k) ==> k in KeysOf(items))
    && (forall k :: k in KeysOf(items) && HasKey(s.buffer, k) ==> Pending(s.tasks, k))
    && (forall k :: k !in KeysOf(items) ==>
         (HasKey(s.buffer, k) <==> HasKey(b.buffer, k) || (Known(s.appended, k) && !Known(b.appended, k))))
  }

  lemma MidwayStart<D(!new)>(b: State<D>, snapshot: seq<Entry<Stored<D>>>, s: State<D>)
    requires Inv(b) && Quiet(b) && Takes(b, Begin(snapshot), s)
    ensures Midway(b, Scanned(snapshot), s)
  {
    hide Inv, Scanned, SnapshotOf, ToWrite, Sorted, GroupsOf, Pending, Owes;
    BeginKeepsInv(b, snapshot, s);
    var items := Scanned(snapshot);
    ToWriteOfGroups(items);
    ToWriteQuiet(b.tasks);
    ToWriteConcat(b.tasks, TasksOf(GroupsOf(items)));
    InvBuffer(b);
    forall k | k in KeysOf(items) ensures Known(b.appended, k) && Pending(s.tasks, k) {
      var j :| 0 <= j < |items| && KeysOf(items)[j] == k;
      ScannedMembers(b, snapshot, items[j]);
      ScannedIsPending(b.tasks, items, k);
    }
    forall i, k | 0 <= i < |s.tasks| && Owes(s.tasks[i], k) ensures k in KeysOf(items) {
      OwedIsScanned(b.tasks, items, i, k);
    }
  }

  lemma ScannedIsPending<D(!new)>(ts: seq<Task<D>>, items: seq<Item<D>>, k: Bytes)
    requires k in KeysOf(items)
    ensures Pending(ts + TasksOf(GroupsOf(items)), k)
  {
    hide GroupsOf;
    var gs := GroupsOf(items);
    GroupsConserve(items);
    KeyInSomeGroup(gs, k);
    var i :| 0 <= i < |gs| && k in gs[i].keys;
    assert Owes((ts + TasksOf(gs))[|ts| + i], k);
  }

  lemma OwedIsScanned<D(!new)>(ts: seq<Task<D>>, items: seq<Item<D>>, i: nat, k: Bytes)
    requires forall j :: 0 <= j < |ts| ==> ts[j].phase.Finished?
    requires i < |ts + TasksOf(GroupsOf(items))| && Owes((ts + TasksOf(GroupsOf(items)))[i], k)
    ensures k in KeysOf(items)
  {
    hide GroupsOf;
    var g := GroupsOf(items)[i - |ts|];
    var j :| 0 <= j < |g.keys| && g.keys[j] == k;
    GroupMembers(items, i - |ts|, j);
    var x :| 0 <= x < |items| && items[x] == (g.keys[j], g.blocks[j]);
    assert KeysOf(items)[x] == k;
  }

  lemma InvBuffer<D(!new)>(s: State<D>)
    requires Inv(s)
    ensures BufferValid(s)
  {
  }

  lemma {:induction false} KeyInSomeGroup<D(!new)>(gs: seq<Group<D>>, k: Bytes)
    requires k in AllKeys(gs)
    ensures exists i :: 0 <= i < |gs| && k in gs[i].keys
  {
    var n := |gs| - 1;
    if k in gs[n].keys {
      assert k in gs[n].keys;
    } else {
      KeyInSomeGroup(gs[..n], k);
      var i :| 0 <= i < n && k in gs[..n][i].keys;
      assert k in gs[i].keys;
    }
  }

  lemma MidwayAppend<D(!new)>(b: State<D>, items: seq<Item<D>>, s: State<D>, k: Bytes, v: Stored<D>, s': State<D>)
    requires Midway(b, items, s) && !Known(s.appended, k) && Takes(s, Append(k, v), s')
    ensures Midway(b, items, s')
  {
    hide Inv, ToWrite, Sorted, Pending, Owes;
    FreshIsHarmless(s, k, v);
    AppendKeepsInv(s, k, v);
    forall x ensures Known(s'.appended, x) <==> x == k || Known(s.appended, x) { KnownSnoc(s.appended, k, v, x); }
    forall x ensures HasKey(s'.buffer, x) <==> x == k || HasKey(s.buffer, x) {
      assert Entry(k, Some(v)) in s'.buffer;
      if x != k && HasKey(s.buffer, x) {
        var e :| e in s.buffer && e.key == x;
        assert e in s'.buffer;
      }
    }
  }

  lemma KnownSnoc<D>(appended: seq<Appended<D>>, k: Bytes, v: Stored<D>, x: Bytes)
    ensures Known(appended + [(k, v)], x) <==> x == k || Known(appended, x)
  {
    var all := appended + [(k, v)];
    if i :| 0 <= i < |appended| && appended[i].0 == x { assert all[i].0 == x; }
    if x == k { assert all[|appended|].0 == x; }
  }

  lemma MidwayWrite<D(!new)>(b: State<D>, items: seq<Item<D>>, s: State<D>, i: nat, s': State<D>)
    requires Midway(b, items, s) && Takes(s, Write(i, true), s')
    ensures Midway(b, items, s')
  {
    hide Inv, ToWrite, Pairs, HasKey;
    WriteKeepsInv(s, i, true, s');
    ToWriteUpdate(s.tasks, i, s'.tasks[i]);
    var p := multiset(Pairs(s.tasks[i]));
    assert ToWrite(s'.tasks) + p == ToWrite(s.tasks);
    assert multiset(s'.written) + ToWrite(s'.tasks) == multiset(s.written) + (ToWrite(s'.tasks) + p);
    forall j, x | 0 <= j < |s.tasks| ensures Owes(s'.tasks[j], x) <==> Owes(s.tasks[j], x) { }
    forall x ensures Pending(s'.tasks, x) <==> Pending(s.tasks, x) {
      if Pending(s.tasks, x) {
        var j :| 0 <= j < |s.tasks| && Owes(s.tasks[j], x);
        assert Owes(s'.tasks[j], x);
      }
    }
  }

  lemma MidwayDelete<D(!new)>(b: State<D>, items: seq<Item<D>>, s: State<D>, i: nat, n: nat, s': State<D>)
    requires Midway(b, items, s) && Takes(s, Delete(i, n), s')
    ensures Midway(b, items, s')
  {
    hide Inv, ToWrite, Pairs;
    DeleteKeepsInv(s, i, n, s');
    ToWriteUnchanged(s.tasks, i, s'.tasks[i]);
    var rest := s.tasks[i].phase.rest;
    var gone := rest[..n];
    forall x | x in rest ensures x in KeysOf(items) { assert Owes(s.tasks[i], x); }
    forall x ensures HasKey(s'.buffer, x) <==> HasKey(s.buffer, x) && x !in gone {
      if HasKey(s.buffer, x) && x !in gone {
        var e :| e in s.buffer && e.key == x;
        assert e in s'.buffer;
      }
    }
    forall x | Pending(s.tasks, x) && x !in gone ensures Pending(s'.tasks, x) {
      var j :| 0 <= j < |s.tasks| && Owes(s.tasks[j], x);
      if j == i { assert x in rest[n..]; }
      assert Owes(s'.tasks[j], x);
    }
    forall j, x | 0 <= j < |s'.tasks| && Owes(s'.tasks[j], x) ensures Owes(s.tasks[j], x) { }
  }

  lemma {:induction false} MidwayAlong<D(!new)>(states: seq<State<D>>, steps: seq<Step<D>>, n: nat)
    requires LoneRun(states, steps) && 0 < n < |states|
    ensures Midway(states[0], Scanned(steps[0].snapshot), states[n])
  {
    hide Midway, Inv, Takes, Scanned;
    if n == 1 {
      MidwayStart(states[0], steps[0].snapshot, states[1]);
    } else {
      MidwayAlong(states, steps, n - 1);
      var b, items := states[0], Scanned(steps[0].snapshot);
      match steps[n - 1]
      case Append(k, v) => MidwayAppend(b, items, states[n - 1], k, v, states[n]);
      case Write(i, _) => MidwayWrite(b, items, states[n - 1], i, states[n]);
      case Delete(i, c) => MidwayDelete(b, items, states[n - 1], i, c, states[n]);
      case _ =>
    }
  }

  /** When a lone run without failures has come to rest, it has written every scanned block exactly once, and the buffer
      holds just what it did not scan and what was appended since. */
  lemma LoneRunIsExact<D(!new)>(states: seq<State<D>>, steps: seq<Step<D>>)
    requires LoneRun(states, steps) && Quiet(states[|steps|])
    ensures var b, items, s := states[0], Scanned(steps[0].snapshot), states[|steps|];
      && multiset(s.written) == multiset(b.written) + multiset(items)
      && forall k :: HasKey(s.buffer, k)
           <==> (HasKey(b.buffer, k) && k !in KeysOf(items)) || (Known(s.appended, k) && !Known(b.appended, k))
  {
    hide Inv, Takes, Scanned, HasKey, ToWrite, KeysOf;
    MidwayAlong(states, steps, |steps|);
    ToWriteQuiet(states[|steps|].tasks);
  }

  // ---- why keys must be fresh ----

  lemma ScanOfOne<D(!new)>(k: Bytes, b: Block<D>)
    requires |k| == 16
    ensures TasksOf(GroupsOf(Scanned([Entry(k, Some(Some(b)))]))) == [Task([k], [b], Queued)]
  {
    var one: seq<Entry<Stored<D>>> := [Entry(k, Some(Some(b)))];
    var seen: seq<(Bytes, Stored<D>)> := [(k, Some(b))];
    var items: seq<Item<D>> := [(k, b)];
    FirstToLastIsEverything(k);
    hide Leq;
    assert Visible(one, First(), Last()) == seen by { assert one[1..] == []; }
    assert Decodable(seen) == items by { assert seen[1..] == []; }
    assert GroupsOf(items) == [Single((k, b))] by { assert items[..0] == []; }
  }

  /** The states of a run in which a key is appended again between a task's write and its delete. */
  function Reuse<D>(k: Bytes, first: Block<D>, second: Block<D>, n: nat): State<D> {
    var t := Task([k], [first], Queued);
    var once, twice := [(k, Some(first))], [(k, Some(first)), (k, Some(second))];
    if n == 0 then State([], [], [], [])
    else if n == 1 then State([Entry(k, Some(Some(first)))], once, [], [])
    else if n == 2 then State([Entry(k, Some(Some(first)))], once, [t], [])
    else if n == 3 then State([Entry(k, Some(Some(first)))], once, [t.(phase := Deleting([k]))], [(k, first)])
    else if n == 4 then State([Entry(k, Some(Some(second)))], twice, [t.(phase := Deleting([k]))], [(k, first)])
    else State([], twice, [t.(phase := Finished)], [(k, first)])
  }

  lemma ReuseDeletes<D(!new)>(k: Bytes, first: Block<D>, second: Block<D>)
    ensures Takes(Reuse(k, first, second, 4), Delete(0, 1), Reuse(k, first, second, 5))
  {
    var s4, s5 := Reuse(k, first, second, 4), Reuse(k, first, second, 5);
    var rest := s4.tasks[0].phase.rest;
    assert rest[..1] == [k] && rest[1..] == [];
    assert s4.buffer[0].key in rest[..1] && s4.buffer[1..] == [];
    assert s5.tasks == s4.tasks[0 := s4.tasks[0].(phase := Finished)];
  }

  lemma ReuseWrites<D(!new)>(k: Bytes, first: Block<D>, second: Block<D>)
    ensures Takes(Reuse(k, first, second, 2), Write(0, true), Reuse(k, first, second, 3))
  {
    var s2, s3 := Reuse(k, first, second, 2), Reuse(k, first, second, 3);
    assert Pairs(s2.tasks[0]) == [(k, first)];
    assert s3.tasks == s2.tasks[0 := s2.tasks[0].(phase := Deleting([k]))];
  }

  lemma ReuseAppends<D(!new)>(k: Bytes, first: Block<D>, second: Block<D>)
    ensures Takes(Reuse(k, first, second, 0), Append(k, Some(first)), Reuse(k, first, second, 1))
    ensures Takes(Reuse(k, first, second, 3), Append(k, Some(second)), Reuse(k, first, second, 4))
  {
    var s3, s4 := Reuse(k, first, second, 3), Reuse(k, first, second, 4);
    assert s3.appended + [(k, Some(second))] == s4.appended;
    assert s3.buffer[1..] == [];
  }

  /** Such an append is not harmless: the second block is deleted unwritten. */
  lemma ReusedKeyLosesBlock<D(!new)>(k: Bytes, first: Block<D>, second: Block<D>)
    requires |k| == 16 && first != second
    ensures Initial(Reuse(k, first, second, 0))
    ensures Takes(Reuse(k, first, second, 0), Append(k, Some(first)), Reuse(k, first, second, 1))
    ensures Takes(Reuse(k, first, second, 1), Begin(Reuse(k, first, second, 1).buffer), Reuse(k, first, second, 2))
    ensures Takes(Reuse(k, first, second, 2), Write(0, true), Reuse(k, first, second, 3))
    ensures Takes(Reuse(k, first, second, 3), Append(k, Some(second)), Reuse(k, first, second, 4))
    ensures Takes(Reuse(k, first, second, 4), Delete(0, 1), Reuse(k, first, second, 5))
    ensures !Lossless(Reuse(k, first, second, 5))
  {
    hide Visible, GroupsOf, Scanned, Insert, Remove, Pairs;
    ReuseAppends(k, first, second);
    ScanOfOne(k, first);
    ReuseWrites(k, first, second);
    ReuseDeletes(k, first, second);
    assert Reuse(k, first, second, 5).appended[1] == (k, Some(second));
    assert !Kept(Reuse(k, first, second, 5), k, Some(second));
  }
}

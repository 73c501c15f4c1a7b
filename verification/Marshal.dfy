/** Whole-message encodings of Batch, Event and Value, their Size methods, and the backward marshalling into a buffer.
    */
module Marshal {
  import opened ByteStrings
  import opened Orders
  import opened Varints
  import opened Wire
  import opened Messages

  // ---- sizes, as the Size methods compute them ----

  function ValueSize(v: Value): nat {
    match v
    case Unset => 0
    case Int32Value(x) => 1 + Sov(ToUint64(x))
    case Int64Value(x) => 1 + Sov(ToUint64(x))
    case Float64Value(_) => 9
    case StringValue(r) => 1 + Sov(r)
    case BoolValue(_) => 2
    case TimeValue(x) => 1 + Sov(ToUint64(x))
    case JsonValue(r) => 1 + Sov(r)
  }

  function StringEntrySize(k: Uint32, v: Bytes): nat {
    var l := if |v| > 0 then 1 + |v| + Sov(|v|) else 0;
    var e := 1 + Sov(k) + l;
    e + 1 + Sov(e)
  }

  function ValueEntrySize(k: Uint32, v: Option<Value>): nat {
    var l := match v case None => 0 case Some(x) => ValueSize(x) + 1 + Sov(ValueSize(x));
    var e := 1 + Sov(k) + l;
    e + 1 + Sov(e)
  }

  lemma ValueSizeIsLength(v: Value)
    ensures ValueSize(v) == |ValueBytes(v)|
  {
    hide Sov, Varint;
    match v
    case Int32Value(x) => SovIsLength(ToUint64(x));
    case Int64Value(x) => SovIsLength(ToUint64(x));
    case StringValue(r) => SovIsLength(r);
    case TimeValue(x) => SovIsLength(ToUint64(x));
    case JsonValue(r) => SovIsLength(r);
    case _ =>
  }

  lemma DelimitedSize(tag: Byte, payload: Bytes)
    ensures |Delimited(tag, payload)| == 1 + |payload| + Sov(|payload|)
  {
    hide Sov, Varint;
    SovIsLength(|payload|);
  }

  lemma StringEntrySizeIsLength(k: Uint32, v: Bytes)
    ensures StringEntrySize(k, v) == |StringEntryBytes(k, v)|
  {
    hide Sov, Varint, Delimited;
    SovIsLength(k);
    DelimitedSize(0x12, v);
    DelimitedSize(0x0a, KeyBytes(k) + StringPart(v));
  }

  lemma ValueEntrySizeIsLength(k: Uint32, v: Option<Value>)
    ensures ValueEntrySize(k, v) == |ValueEntryBytes(k, v)|
  {
    hide Sov, Varint, Delimited, ValueBytes, ValueSize;
    SovIsLength(k);
    if v.Some? {
      ValueSizeIsLength(v.value);
      DelimitedSize(0x12, ValueBytes(v.value));
    }
    DelimitedSize(0x0a, KeyBytes(k) + ValuePart(v));
  }

  // ---- encodings of whole messages, for any map order ----

  function StringEntryOf(m: map<Uint32, Bytes>): Uint32 -> Bytes {
    k => if k in m then StringEntryBytes(k, m[k]) else []
  }

  function ValueEntryOf(m: map<Uint32, Option<Value>>): Uint32 -> Bytes {
    k => if k in m then ValueEntryBytes(k, m[k]) else []
  }

  function StringEntrySizeOf(m: map<Uint32, Bytes>): Uint32 -> nat {
    k => if k in m then StringEntrySize(k, m[k]) else 0
  }

  function ValueEntrySizeOf(m: map<Uint32, Option<Value>>): Uint32 -> nat {
    k => if k in m then ValueEntrySize(k, m[k]) else 0
  }

  function EventField(s: Bytes): Bytes { Delimited(0x12, s) }

  /** `s` is an encoding of the event: its entries in some order. */
  ghost predicate EventWire(e: Event, s: Bytes) {
    exists order :: Enumerates(order, e.value.Keys) && s == Concat(order, ValueEntryOf(e.value))
  }

  ghost predicate EventsWire(events: seq<Event>, parts: seq<Bytes>) {
    |parts| == |events| && forall i :: 0 <= i < |events| ==> EventWire(events[i], parts[i])
  }

  /** `s` is an encoding of the batch: the strings in some order, then the events in theirs. */
  ghost predicate BatchWire(b: Batch, s: Bytes) {
    exists n :: 0 <= n <= |s| && StringsWire(b.strings, s[..n]) && EventFieldsWire(b.events, s[n..])
  }

  ghost predicate StringsWire(m: map<Uint32, Bytes>, s: Bytes) {
    exists order :: Enumerates(order, m.Keys) && s == Concat(order, StringEntryOf(m))
  }

  ghost predicate EventFieldsWire(events: seq<Event>, s: Bytes) {
    exists parts :: EventsWire(events, parts) && s == Concat(parts, EventField)
  }

  ghost function EventSize(e: Event): nat { SetSum(e.value.Keys, ValueEntrySizeOf(e.value)) }

  ghost function EventsSize(events: seq<Event>): nat {
    if events == [] then 0
    else
      var l := EventSize(events[|events| - 1]);
      EventsSize(events[..|events| - 1]) + (1 + l + Sov(l))
  }

  ghost function BatchSize(b: Batch): nat {
    SetSum(b.strings.Keys, StringEntrySizeOf(b.strings)) + EventsSize(b.events)
  }

  /** Size() predicts the length of the encoding, whichever orders Size and Marshal visit the map in. */
  lemma EventSizeIsLength(e: Event, s: Bytes)
    requires EventWire(e, s)
    ensures EventSize(e) == |s|
  {
    hide ValueEntrySize, ValueEntryBytes;
    var m := e.value;
    var order :| Enumerates(order, m.Keys) && s == Concat(order, ValueEntryOf(m));
    forall k: Uint32 ensures ValueEntrySizeOf(m)(k) == |ValueEntryOf(m)(k)| {
      if k in m { ValueEntrySizeIsLength(k, m[k]); }
    }
    ConcatLength(order, ValueEntryOf(m), ValueEntrySizeOf(m));
    SumIsSetSum(order, m.Keys, ValueEntrySizeOf(m));
  }

  lemma {:induction false} EventsSizeIsLength(events: seq<Event>, parts: seq<Bytes>)
    requires EventsWire(events, parts)
    ensures EventsSize(events) == |Concat(parts, EventField)|
  {
    hide EventWire, EventSize, Sov, Delimited;
    if events != [] {
      var n := |events| - 1;
      EventsSizeIsLength(events[..n], parts[..n]);
      EventSizeIsLength(events[n], parts[n]);
      assert parts == parts[..n] + [parts[n]];
      ConcatAppend(parts[..n], [parts[n]], EventField);
      assert Concat([parts[n]], EventField) == EventField(parts[n]) + [];
      DelimitedSize(0x12, parts[n]);
    }
  }

  lemma BatchSizeIsLength(b: Batch, s: Bytes)
    requires BatchWire(b, s)
    ensures BatchSize(b) == |s|
  {
    hide StringsWire, EventsSize, EventsWire, SetSum;
    var n :| 0 <= n <= |s| && StringsWire(b.strings, s[..n]) && EventFieldsWire(b.events, s[n..]);
    StringsSizeIsLength(b.strings, s[..n]);
    var parts :| EventsWire(b.events, parts) && s[n..] == Concat(parts, EventField);
    EventsSizeIsLength(b.events, parts);
  }

  lemma StringsSizeIsLength(m: map<Uint32, Bytes>, s: Bytes)
    requires StringsWire(m, s)
    ensures SetSum(m.Keys, StringEntrySizeOf(m)) == |s|
  {
    hide StringEntrySize, StringEntryBytes;
    var order :| Enumerates(order, m.Keys) && s == Concat(order, StringEntryOf(m));
    forall k: Uint32 ensures StringEntrySizeOf(m)(k) == |StringEntryOf(m)(k)| {
      if k in m { StringEntrySizeIsLength(k, m[k]); }
    }
    ConcatLength(order, StringEntryOf(m), StringEntrySizeOf(m));
    SumIsSetSum(order, m.Keys, StringEntrySizeOf(m));
  }

  // ---- round trips ----

  function Overlay<V>(acc: map<Uint32, V>, order: seq<Uint32>, m: map<Uint32, V>): map<Uint32, V>
    requires forall k :: k in order ==> k in m
    decreases |order|
  {
    if order == [] then acc else Overlay(acc[order[0] := m[order[0]]], order[1..], m)
  }

  lemma {:induction false} OverlayIs<V>(acc: map<Uint32, V>, order: seq<Uint32>, m: map<Uint32, V>)
    requires forall k :: k in order ==> k in m
    ensures forall k :: k in Overlay(acc, order, m) <==> k in acc || k in order
    ensures forall k :: k in Overlay(acc, order, m) ==>
      Overlay(acc, order, m)[k] == if k in order then m[k] else acc[k]
    decreases |order|
  {
    if order != [] { OverlayIs(acc[order[0] := m[order[0]]], order[1..], m); }
  }

  lemma OverlayAll<V>(order: seq<Uint32>, m: map<Uint32, V>)
    requires Enumerates(order, m.Keys)
    ensures forall k :: k in order ==> k in m
    ensures Overlay(map[], order, m) == m
  {
    EnumeratesMembers(order, m.Keys);
    OverlayIs(map[], order, m);
  }

  lemma {:induction false} EntriesDecode(order: seq<Uint32>, m: map<Uint32, Option<Value>>, acc: Event)
    requires forall k :: k in order ==> k in m
    requires |Concat(order, ValueEntryOf(m))| < TWO_63
    ensures DecodeEvent(Concat(order, ValueEntryOf(m)), acc) == Ok(Event(Overlay(acc.value, order, m)))
  {
    hide ReadTag, ReadLength, MapEntry, SkipUnknown, ValueEntryBytes;
    if order != [] {
      var k := order[0];
      var head, tail := ValueEntryBytes(k, m[k]), Concat(order[1..], ValueEntryOf(m));
      assert Concat(order, ValueEntryOf(m)) == head + tail;
      EventStepRoundTrip(k, m[k], tail, acc);
      assert head != [] by { ValueEntrySizeIsLength(k, m[k]); }
      assert (head + tail)[|head|..] == tail;
      EntriesDecode(order[1..], m, Event(acc.value[k := m[k]]));
    }
  }

  /** Event.Unmarshal undoes Event.Marshal, for any map order. */
  lemma EventRoundTrip(e: Event, s: Bytes)
    requires EventWire(e, s) && |s| < TWO_63
    ensures DecodeEvent(s, Event(map[])) == Ok(e)
  {
    hide DecodeEvent, Concat;
    var order :| Enumerates(order, e.value.Keys) && s == Concat(order, ValueEntryOf(e.value));
    OverlayAll(order, e.value);
    EntriesDecode(order, e.value, Event(map[]));
  }

  lemma {:induction false} StringsDecode(order: seq<Uint32>, m: map<Uint32, Bytes>, acc: Batch)
    requires forall k :: k in order ==> k in m
    requires |Concat(order, StringEntryOf(m))| < TWO_63
    ensures DecodeBatch(Concat(order, StringEntryOf(m)), acc)
         == Ok(acc.(strings := Overlay(acc.strings, order, m)))
  {
    hide ReadTag, ReadLength, MapEntry, SkipUnknown, StringEntryBytes;
    if order != [] {
      var k := order[0];
      var head, tail := StringEntryBytes(k, m[k]), Concat(order[1..], StringEntryOf(m));
      assert Concat(order, StringEntryOf(m)) == head + tail;
      BatchStepString(k, m[k], tail, acc);
      assert head != [] by { StringEntrySizeIsLength(k, m[k]); }
      assert (head + tail)[|head|..] == tail;
      StringsDecode(order[1..], m, acc.(strings := acc.strings[k := m[k]]));
    }
  }

  lemma {:induction false} EventsDecode(events: seq<Event>, parts: seq<Bytes>, acc: Batch)
    requires EventsWire(events, parts) && |Concat(parts, EventField)| < TWO_63
    ensures DecodeBatch(Concat(parts, EventField), acc) == Ok(acc.(events := acc.events + events))
  {
    hide ReadTag, ReadLength, MapEntry, SkipUnknown, EventWire, DecodeEvent;
    if parts == [] {
      assert acc.events + events == acc.events;
    } else {
      var head, tail := Delimited(0x12, parts[0]), Concat(parts[1..], EventField);
      assert Concat(parts, EventField) == head + tail;
      EventRoundTrip(events[0], parts[0]);
      BatchStepEvent(parts[0], events[0], tail, acc);
      assert (head + tail)[|head|..] == tail;
      var acc' := acc.(events := acc.events + [events[0]]);
      EventsDecode(events[1..], parts[1..], acc');
      assert acc.events + events == acc'.events + events[1..];
    }
  }

  /** Batch.Unmarshal undoes Batch.Marshal, for any map orders. */
  lemma BatchRoundTrip(b: Batch, s: Bytes)
    requires BatchWire(b, s) && |s| < TWO_63
    ensures DecodeBatch(s, Batch(map[], [])) == Ok(b)
  {
    hide ReadTag, ReadLength, MapEntry, SkipUnknown, EventWire, Concat, Fields, BatchStep;
    var n :| 0 <= n <= |s| && StringsWire(b.strings, s[..n]) && EventFieldsWire(b.events, s[n..]);
    var order :| Enumerates(order, b.strings.Keys) && s[..n] == Concat(order, StringEntryOf(b.strings));
    var parts :| EventsWire(b.events, parts) && s[n..] == Concat(parts, EventField);
    OverlayAll(order, b.strings);
    StringsDecode(order, b.strings, Batch(map[], []));
    EventsDecode(b.events, parts, Batch(b.strings, []));
    BatchStepIsStable();
    FieldsOfConcat(BatchStep, s[..n], s[n..], Batch(map[], []));
    assert s[..n] + s[n..] == s && [] + b.events == b.events;
  }

  /** A field of a later version of the schema, between two fields of an encoded batch, does not change what is
      decoded. */
  lemma EncodedBatchIgnoresUnknown(b: Batch, before: Bytes, after: Bytes, f: Field)
    requires BatchWire(b, before + after) && |before + after| < TWO_63
    requires DecodeBatch(before, Batch(map[], [])).Ok?
    requires WellFormed(f) && f.number > 2 && |Encode(f)| < TWO_63
    ensures DecodeBatch(before + Encode(f) + after, Batch(map[], [])) == Ok(b)
  {
    hide DecodeBatch, BatchWire, Encode;
    BatchRoundTrip(b, before + after);
    UnknownInBatch(before, f, after, Batch(map[], []));
  }

  // ---- marshalling backward into a buffer: each method writes so that its output ends just before `hi` ----

  lemma SplitAt(data: array<Byte>, a: nat, b: nat, c: nat)
    requires a <= b <= c <= data.Length
    ensures data[a..c] == data[a..b] + data[b..c]
  {
  }

  method PutTag(data: array<Byte>, hi: nat, tag: Byte) returns (i: nat)
    requires 1 <= hi <= data.Length
    modifies data
    ensures i == hi - 1 && data[i] == tag
    ensures forall j :: 0 <= j < data.Length && j != i ==> data[j] == old(data[j])
  {
    i := hi - 1;
    data[i] := tag;
  }

  method PutTaggedVarint(data: array<Byte>, hi: nat, tag: Byte, u: Uint64) returns (i: nat)
    requires 1 + Sov(u) <= hi <= data.Length
    modifies data
    ensures i == hi - 1 - Sov(u) && data[i..hi] == [tag] + Varint(u)
    ensures forall j :: 0 <= j < i || hi <= j < data.Length ==> data[j] == old(data[j])
  {
    hide Sov, Varint;
    i := EncodeVarint(data, hi, u);
    ghost var w := data[i..hi];
    i := PutTag(data, i, tag);
    SplitAt(data, i, i + 1, hi);
    assert data[i + 1..hi] == w;
  }

  method PutLittleEndian(data: array<Byte>, at: nat, v: Uint64)
    requires at + 8 <= data.Length
    modifies data
    ensures data[at..at + 8] == LittleEndian(v, 8)
    ensures forall j :: 0 <= j < at || at + 8 <= j < data.Length ==> data[j] == old(data[j])
  {
    var k, w: nat := 0, v;
    ghost var all := LittleEndian(v, 8);
    while k < 8
      invariant 0 <= k <= 8 && all[k..] == LittleEndian(w, 8 - k)
      invariant forall j :: 0 <= j < k ==> data[at + j] == all[j]
      invariant forall j :: 0 <= j < at || at + 8 <= j < data.Length ==> data[j] == old(data[j])
    {
      NextByte(all, k, w % 256, LittleEndian(w / 256, 7 - k));
      data[at + k] := w % 256;
      w := w / 256;
      k := k + 1;
    }
  }

  method PutTaggedFixed(data: array<Byte>, hi: nat, tag: Byte, v: Uint64) returns (i: nat)
    requires 9 <= hi <= data.Length
    modifies data
    ensures i == hi - 9 && data[i..hi] == [tag] + LittleEndian(v, 8)
    ensures forall j :: 0 <= j < i || hi <= j < data.Length ==> data[j] == old(data[j])
  {
    hide LittleEndian;
    PutLittleEndian(data, hi - 8, v);
    ghost var w := data[hi - 8..hi];
    i := PutTag(data, hi - 8, tag);
    SplitAt(data, i, i + 1, hi);
    assert data[i + 1..hi] == w;
  }

  method MarshalValue(data: array<Byte>, hi: nat, v: Value) returns (i: nat)
    requires ValueSize(v) <= hi <= data.Length
    modifies data
    ensures i == hi - ValueSize(v) && data[i..hi] == ValueBytes(v)
    ensures forall j :: 0 <= j < i || hi <= j < data.Length ==> data[j] == old(data[j])
  {
    hide Sov, Varint, LittleEndian;
    match v {
      case Unset => i := hi;
      case Int32Value(x) => i := PutTaggedVarint(data, hi, 0x08, ToUint64(x));
      case Int64Value(x) => i := PutTaggedVarint(data, hi, 0x10, ToUint64(x));
      case Float64Value(b) => i := PutTaggedFixed(data, hi, 0x19, b);
      case StringValue(r) => i := PutTaggedVarint(data, hi, 0x20, r);
      case BoolValue(b) =>
        i := PutTag(data, hi, if b then 1 else 0);
        i := PutTag(data, i, 0x28);
      case TimeValue(x) => i := PutTaggedVarint(data, hi, 0x30, ToUint64(x));
      case JsonValue(r) => i := PutTaggedVarint(data, hi, 0x38, r);
    }
  }

  /** Prefixes the payload that ends at `hi` with its length and tag. */
  method PutHeader(data: array<Byte>, from: nat, hi: nat, tag: Byte) returns (i: nat)
    requires from <= hi <= data.Length < TWO_63 && 1 + Sov(hi - from) <= from
    modifies data
    ensures i == from - 1 - Sov(hi - from)
    ensures data[i..hi] == Delimited(tag, old(data[from..hi]))
    ensures forall j :: 0 <= j < i || from <= j < data.Length ==> data[j] == old(data[j])
  {
    hide Sov, Varint;
    i := PutTaggedVarint(data, from, tag, hi - from);
    ghost var head := data[i..from];
    assert data[from..hi] == old(data[from..hi]);
    assert data[i..hi] == head + data[from..hi];
  }

  /** The common tail of a map entry: the key, then the entry's own header. */
  method PutEntryHead(data: array<Byte>, from: nat, hi: nat, k: Uint32) returns (i: nat)
    requires from <= hi <= data.Length < TWO_63
    requires 1 + Sov(k) + 1 + Sov(1 + Sov(k) + (hi - from)) <= from
    modifies data
    ensures i == from - (1 + Sov(k) + 1 + Sov(1 + Sov(k) + (hi - from)))
    ensures data[i..hi] == Delimited(0x0a, KeyBytes(k) + old(data[from..hi]))
    ensures forall j :: 0 <= j < i || from <= j < data.Length ==> data[j] == old(data[j])
  {
    hide Sov, Varint, Delimited;
    i := PutTaggedVarint(data, from, 0x08, k);
    assert data[from..hi] == old(data[from..hi]);
    SplitAt(data, i, from, hi);
    i := PutHeader(data, i, hi, 0x0a);
  }

  method MarshalStringEntry(data: array<Byte>, hi: nat, k: Uint32, v: Bytes, ghost end: nat) returns (i: nat)
    requires StringEntrySize(k, v) <= hi <= end <= data.Length < TWO_63
    modifies data
    ensures i == hi - StringEntrySize(k, v) && data[i..end] == StringEntryBytes(k, v) + old(data[hi..end])
    ensures forall j :: 0 <= j < i || hi <= j < data.Length ==> data[j] == old(data[j])
  {
    hide Sov, Varint, Delimited;
    i := hi;
    if |v| > 0 {
      i := hi - |v|;
      forall j | i <= j < hi { data[j] := v[j - i]; }
      assert data[i..hi] == v;
      i := PutHeader(data, i, hi, 0x12);
    }
    assert data[i..hi] == StringPart(v);
    i := PutEntryHead(data, i, hi, k);
    assert data[hi..end] == old(data[hi..end]);
    SplitAt(data, i, hi, end);
  }

  method MarshalValueEntry(data: array<Byte>, hi: nat, k: Uint32, v: Option<Value>, ghost end: nat) returns (i: nat)
    requires ValueEntrySize(k, v) <= hi <= end <= data.Length < TWO_63
    modifies data
    ensures i == hi - ValueEntrySize(k, v) && data[i..end] == ValueEntryBytes(k, v) + old(data[hi..end])
    ensures forall j :: 0 <= j < i || hi <= j < data.Length ==> data[j] == old(data[j])
  {
    hide Sov, Varint, Delimited, ValueSize, ValueBytes;
    i := hi;
    if v.Some? {
      i := MarshalValue(data, hi, v.value);
      i := PutHeader(data, i, hi, 0x12);
    }
    assert data[i..hi] == ValuePart(v);
    i := PutEntryHead(data, i, hi, k);
    assert data[hi..end] == old(data[hi..end]);
    SplitAt(data, i, hi, end);
  }

  /** Event.Size: visits the map in any order. */
  method SizeOfEvent(e: Event) returns (n: nat)
    ensures n == EventSize(e)
  {
    hide ValueEntrySize;
    var rest := e.value.Keys;
    n := 0;
    while rest != {}
      invariant rest <= e.value.Keys && n + SetSum(rest, ValueEntrySizeOf(e.value)) == EventSize(e)
    {
      var k :| k in rest;
      SetSumRemove(rest, k, ValueEntrySizeOf(e.value));
      n := n + ValueEntrySize(k, e.value[k]);
      rest := rest - {k};
    }
  }

  /** Event.MarshalToSizedBuffer: visits the map in any order and fills exactly Size() bytes. */
  method MarshalEvent(data: array<Byte>, hi: nat, e: Event) returns (i: nat)
    requires EventSize(e) <= hi <= data.Length < TWO_63
    modifies data
    ensures i == hi - EventSize(e) && EventWire(e, data[i..hi])
    ensures forall j :: 0 <= j < i || hi <= j < data.Length ==> data[j] == old(data[j])
  {
    hide ValueEntrySize, ValueEntryBytes, SetSum, Concat, Visited;
    i := hi;
    var m, rest := e.value, e.value.Keys;
    ghost var order: seq<Uint32> := StartVisit(m.Keys, ValueEntryOf(m));
    while rest != {}
      invariant i <= hi && rest <= m.Keys && Visited(order, rest, m.Keys)
      invariant i == hi - EventSize(e) + SetSum(rest, ValueEntrySizeOf(m))
      invariant data[i..hi] == Concat(order, ValueEntryOf(m))
      invariant forall j :: 0 <= j < i || hi <= j < data.Length ==> data[j] == old(data[j])
      decreases |rest|
    {
      var k :| k in rest;
      SetSumRemove(rest, k, ValueEntrySizeOf(m));
      VisitNext(order, rest, m.Keys, k, ValueEntryOf(m));
      i := MarshalValueEntry(data, i, k, m[k], hi);
      order := [k] + order;
      rest := rest - {k};
    }
    EndVisit(order, m.Keys, ValueEntrySizeOf(m));
  }

  ghost function StartVisit<T>(s: set<T>, f: T -> Bytes): (order: seq<T>)
    ensures Visited(order, s, s) && Concat(order, f) == []
  {
    []
  }

  lemma EndVisit<T(!new)>(order: seq<T>, s: set<T>, f: T -> nat)
    requires Visited(order, {}, s)
    ensures Enumerates(order, s) && SetSum({}, f) == 0
  {
  }

  /** Batch.Size */
  method SizeOfBatch(b: Batch) returns (n: nat)
    ensures n == BatchSize(b)
  {
    hide StringEntrySize, EventSize, Sov;
    var rest := b.strings.Keys;
    n := 0;
    while rest != {}
      invariant rest <= b.strings.Keys
      invariant n + SetSum(rest, StringEntrySizeOf(b.strings)) == SetSum(b.strings.Keys, StringEntrySizeOf(b.strings))
    {
      var k :| k in rest;
      SetSumRemove(rest, k, StringEntrySizeOf(b.strings));
      n := n + StringEntrySize(k, b.strings[k]);
      rest := rest - {k};
    }
    var strings := n;
    for x := 0 to |b.events|
      invariant n == strings + EventsSize(b.events[..x])
    {
      var l := SizeOfEvent(b.events[x]);
      assert b.events[..x + 1][..x] == b.events[..x];
      n := n + (1 + l + Sov(l));
    }
    assert b.events[..|b.events|] == b.events;
  }

  method MarshalEventField(data: array<Byte>, hi: nat, e: Event, ghost end: nat) returns (i: nat, ghost part: Bytes)
    requires 1 + EventSize(e) + Sov(EventSize(e)) <= hi <= end <= data.Length < TWO_63
    modifies data
    ensures i == hi - (1 + EventSize(e) + Sov(EventSize(e))) && EventWire(e, part)
    ensures data[i..end] == EventField(part) + old(data[hi..end])
    ensures forall j :: 0 <= j < i || hi <= j < data.Length ==> data[j] == old(data[j])
  {
    hide EventSize, EventWire, Sov, Delimited;
    i := MarshalEvent(data, hi, e);
    part := data[i..hi];
    i := PutHeader(data, i, hi, 0x12);
    assert data[hi..end] == old(data[hi..end]);
    SplitAt(data, i, hi, end);
  }

  /** The events of a batch, last first. */
  method MarshalEvents(data: array<Byte>, hi: nat, events: seq<Event>) returns (i: nat, ghost parts: seq<Bytes>)
    requires EventsSize(events) <= hi <= data.Length < TWO_63
    modifies data
    ensures i == hi - EventsSize(events)
    ensures EventsWire(events, parts) && data[i..hi] == Concat(parts, EventField)
    ensures forall j :: 0 <= j < i || hi <= j < data.Length ==> data[j] == old(data[j])
  {
    hide EventSize, EventWire, EventField, Sov;
    i, parts := hi, [];
    var x := |events|;
    assert events[..x] == events;
    while x > 0
      invariant 0 <= x <= |events| && EventsWire(events[x..], parts)
      invariant hi - i + EventsSize(events[..x]) == EventsSize(events) && i <= hi
      invariant data[i..hi] == Concat(parts, EventField)
      invariant forall j :: 0 <= j < i || hi <= j < data.Length ==> data[j] == old(data[j])
    {
      x := x - 1;
      assert events[..x + 1][..x] == events[..x] && events[..x + 1][x] == events[x];
      ghost var part;
      i, part := MarshalEventField(data, i, events[x], hi);
      assert ([part] + parts)[1..] == parts;
      parts := [part] + parts;
    }
  }

  /** The strings of a batch, in any order. */
  method MarshalStrings(data: array<Byte>, hi: nat, m: map<Uint32, Bytes>) returns (i: nat, ghost order: seq<Uint32>)
    requires SetSum(m.Keys, StringEntrySizeOf(m)) <= hi <= data.Length < TWO_63
    modifies data
    ensures i == hi - SetSum(m.Keys, StringEntrySizeOf(m))
    ensures Enumerates(order, m.Keys) && data[i..hi] == Concat(order, StringEntryOf(m))
    ensures forall j :: 0 <= j < i || hi <= j < data.Length ==> data[j] == old(data[j])
  {
    hide StringEntrySize, StringEntryBytes, SetSum, Concat, Visited;
    i := hi;
    var rest := m.Keys;
    order := StartVisit(m.Keys, StringEntryOf(m));
    while rest != {}
      invariant i <= hi && rest <= m.Keys && Visited(order, rest, m.Keys)
      invariant i == hi - SetSum(m.Keys, StringEntrySizeOf(m)) + SetSum(rest, StringEntrySizeOf(m))
      invariant data[i..hi] == Concat(order, StringEntryOf(m))
      invariant forall j :: 0 <= j < i || hi <= j < data.Length ==> data[j] == old(data[j])
      decreases |rest|
    {
      var k :| k in rest;
      SetSumRemove(rest, k, StringEntrySizeOf(m));
      VisitNext(order, rest, m.Keys, k, StringEntryOf(m));
      i := MarshalStringEntry(data, i, k, m[k], hi);
      order := [k] + order;
      rest := rest - {k};
    }
    EndVisit(order, m.Keys, StringEntrySizeOf(m));
  }

  /** Batch.MarshalToSizedBuffer */
  method MarshalBatch(data: array<Byte>, hi: nat, b: Batch) returns (i: nat)
    requires BatchSize(b) <= hi <= data.Length < TWO_63
    modifies data
    ensures i == hi - BatchSize(b) && BatchWire(b, data[i..hi])
    ensures forall j :: 0 <= j < i || hi <= j < data.Length ==> data[j] == old(data[j])
  {
    hide SetSum, Concat, EventsSize, EventsWire, Enumerates;
    ghost var parts, order;
    i, parts := MarshalEvents(data, hi, b.events);
    ghost var tail, at := data[i..hi], i;
    i, order := MarshalStrings(data, i, b.strings);
    assert data[at..hi] == tail;
    ghost var s := data[i..hi];
    assert s[..at - i] == data[i..at] && s[at - i..] == data[at..hi];
    assert StringsWire(b.strings, s[..at - i]) && EventFieldsWire(b.events, s[at - i..]);
  }

  /** Batch.Marshal: allocates Size() bytes and fills all of them; the result decodes to the same batch. */
  method MarshalNew(b: Batch) returns (s: Bytes)
    requires BatchSize(b) < TWO_63
    ensures |s| == BatchSize(b) && BatchWire(b, s)
    ensures DecodeBatch(s, Batch(map[], [])) == Ok(b)
  {
    hide BatchWire, BatchSize, DecodeBatch;
    var n := SizeOfBatch(b);
    var data := new Byte[n];
    var i := MarshalBatch(data, n, b);
    s := data[i..n];
    BatchRoundTrip(b, s);
  }
}

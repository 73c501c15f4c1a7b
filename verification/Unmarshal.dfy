/** The Unmarshal methods as loops over an index, proved to compute the decoding functions. */
module Unmarshal {
  import opened ByteStrings
  import opened Varints
  import opened Wire
  import opened Messages

  method TagAt(data: Bytes, i: nat) returns (r: Result<Tag>)
    requires i <= |data|
    ensures r == ReadTag(data[i..])
  {
    hide ReadVarint;
    var wire := DecodeVarint(data, i, 64, 0);
    if wire.Err? { return Err(wire.error); }
    return Ok(Tag(ToInt32(wire.value.0 / 8), wire.value.0 % 8, wire.value.1));
  }

  method LengthAt(data: Bytes, i: nat) returns (r: Result<(nat, nat)>)
    requires i <= |data|
    ensures r == ReadLength(data[i..])
  {
    hide ReadVarint;
    var v := DecodeVarint(data, i, 64, 0);
    if v.Err? { return Err(v.error); }
    var length := ToInt64(v.value.0);
    if length < 0 { return Err(InvalidLength); }
    if i + v.value.1 + length > |data| { return Err(UnexpectedEof); }
    return Ok((length, v.value.1));
  }

  method SkipAt<M>(data: Bytes, i: nat, m: M) returns (r: Result<(M, nat)>)
    requires i <= |data|
    ensures r == SkipUnknown(data[i..], m)
  {
    hide SkipFrom;
    var n := SkipTalaria(data[i..]);
    if n.Err? { return Err(n.error); }
    if i + n.value > |data| { return Err(UnexpectedEof); }
    return Ok((m, n.value));
  }

  /** The iteration of an Unmarshal loop, on the spec side. */
  lemma NextField<M>(step: (Bytes, M) -> Result<(M, nat)>, data: Bytes, i: nat, m: M)
    requires i < |data|
    ensures match step(data[i..], m)
      case Err(e) => Fields(step, data[i..], m) == Err(e)
      case Ok(p) => 1 <= p.1 && i + p.1 <= |data| ==> Fields(step, data[i..], m) == Fields(step, data[i + p.1..], p.0)
  {
    match step(data[i..], m)
    case Err(e) =>
    case Ok(p) =>
      if 1 <= p.1 && i + p.1 <= |data| { assert data[i..][p.1..] == data[i + p.1..]; }
  }

  method ValueFieldAt(data: Bytes, i: nat, m: Value) returns (r: Result<(Value, nat)>)
    requires i < |data|
    ensures r == ValueStep(data[i..], m)
    ensures r.Ok? ==> 1 <= r.value.1 && i + r.value.1 <= |data|
  {
    hide ReadVarint, ReadTag, SkipUnknown, FromLittleEndian;
    var t := TagAt(data, i);
    if t.Err? { return Err(t.error); }
    var Tag(field, kind, size) := t.value;
    if kind == 4 { return Err(EndGroup); }
    if field <= 0 { return Err(IllegalTag); }
    if field > 7 {
      r := SkipAt(data, i, m);
      return;
    }
    var at := i + size;
    assert data[i..][size..] == data[at..];
    if kind != (if field == 3 then 1 else 0) { return Err(WrongWireType); }
    if field == 3 {
      if at + 8 > |data| { return Err(UnexpectedEof); }
      assert data[at..][..8] == data[at..at + 8];
      return Ok((Float64Value(ToUint64(FromLittleEndian(data[at..at + 8]))), size + 8));
    }
    var v := DecodeVarint(data, at, WidthOf(field), 0);
    if v.Err? { return Err(v.error); }
    return Ok((ValueOf(field, v.value.0), size + v.value.1));
  }

  /** Value.Unmarshal */
  method UnmarshalValue(data: Bytes, init: Value) returns (r: Result<Value>)
    ensures r == DecodeValue(data, init)
  {
    hide ValueStep, Fields;
    var i, m := 0, init;
    assert data[0..] == data;
    while i < |data|
      invariant 0 <= i <= |data| && Fields(ValueStep, data[i..], m) == Fields(ValueStep, data, init)
      decreases |data| - i
    {
      NextField(ValueStep, data, i, m);
      var f := ValueFieldAt(data, i, m);
      if f.Err? { return Err(f.error); }
      m, i := f.value.0, i + f.value.1;
    }
    NoFields(ValueStep, data[i..], m);
    return Ok(m);
  }

  lemma NoFields<M>(step: (Bytes, M) -> Result<(M, nat)>, s: Bytes, m: M)
    requires s == []
    ensures Fields(step, s, m) == Ok(m)
  {
  }

  /** The inner loop over a map entry that ends at `post`. */
  method MapEntryAt<V>(read: Bytes -> Result<V>, data: Bytes, from: nat, post: nat, init: V)
    returns (r: Result<(Uint32, V)>)
    requires from <= post <= |data|
    ensures r == MapEntry(read, data[from..], post - from, 0, init)
  {
    hide ReadVarint, ReadTag, ReadLength, SkipFrom;
    var i, key, val := from, 0, init;
    while i < post
      invariant from <= i <= |data|
      invariant MapEntry(read, data[i..], post - i, key, val) == MapEntry(read, data[from..], post - from, 0, init)
      decreases |data| - i
    {
      var t := TagAt(data, i);
      if t.Err? { return Err(t.error); }
      ghost var s := data[i..];
      var at := i + t.value.size;
      assert s[t.value.size..] == data[at..];
      if t.value.field == 1 {
        var k := DecodeVarint(data, at, 32, key);
        if k.Err? { return Err(k.error); }
        key := ToUint32(k.value.0);
        at := at + k.value.1;
      } else if t.value.field == 2 {
        var l := LengthAt(data, at);
        if l.Err? { return Err(l.error); }
        at := at + l.value.1;
        assert s[at - i..at - i + l.value.0] == data[at..at + l.value.0];
        var v := read(data[at..at + l.value.0]);
        if v.Err? { return Err(v.error); }
        val := v.value;
        at := at + l.value.0;
      } else {
        var n := SkipTalaria(data[i..]);
        if n.Err? { return Err(n.error); }
        if i + n.value > post { return Err(UnexpectedEof); }
        at := i + n.value;
      }
      assert s[at - i..] == data[at..];
      i := at;
    }
    return Ok((key, val));
  }

  method EventFieldAt(data: Bytes, i: nat, m: Event) returns (r: Result<(Event, nat)>)
    requires i < |data|
    ensures r == EventStep(data[i..], m)
    ensures r.Ok? ==> 1 <= r.value.1 && i + r.value.1 <= |data|
  {
    hide ReadVarint, ReadTag, ReadLength, SkipUnknown, MapEntry;
    var t := TagAt(data, i);
    if t.Err? { return Err(t.error); }
    var Tag(field, kind, size) := t.value;
    if kind == 4 { return Err(EndGroup); }
    if field <= 0 { return Err(IllegalTag); }
    if field != 1 {
      r := SkipAt(data, i, m);
      return;
    }
    if kind != 2 { return Err(WrongWireType); }
    assert data[i..][size..] == data[i + size..];
    var l := LengthAt(data, i + size);
    if l.Err? { return Err(l.error); }
    var from := i + size + l.value.1;
    assert data[i..][from - i..] == data[from..];
    var kv := MapEntryAt(ReadValue, data, from, from + l.value.0, None);
    if kv.Err? { return Err(kv.error); }
    return Ok((Event(m.value[kv.value.0 := kv.value.1]), from + l.value.0 - i));
  }

  /** Event.Unmarshal */
  method UnmarshalEvent(data: Bytes, init: Event) returns (r: Result<Event>)
    ensures r == DecodeEvent(data, init)
  {
    hide EventStep, Fields;
    var i, m := 0, init;
    assert data[0..] == data;
    while i < |data|
      invariant 0 <= i <= |data| && Fields(EventStep, data[i..], m) == Fields(EventStep, data, init)
      decreases |data| - i
    {
      NextField(EventStep, data, i, m);
      var f := EventFieldAt(data, i, m);
      if f.Err? { return Err(f.error); }
      m, i := f.value.0, i + f.value.1;
    }
    NoFields(EventStep, data[i..], m);
    return Ok(m);
  }

  method BatchFieldAt(data: Bytes, i: nat, m: Batch) returns (r: Result<(Batch, nat)>)
    requires i < |data|
    ensures r == BatchStep(data[i..], m)
    ensures r.Ok? ==> 1 <= r.value.1 && i + r.value.1 <= |data|
  {
    hide ReadVarint, ReadTag, ReadLength, SkipUnknown, MapEntry, DecodeEvent;
    var t := TagAt(data, i);
    if t.Err? { return Err(t.error); }
    var Tag(field, kind, size) := t.value;
    if kind == 4 { return Err(EndGroup); }
    if field <= 0 { return Err(IllegalTag); }
    if field > 2 {
      r := SkipAt(data, i, m);
      return;
    }
    if kind != 2 { return Err(WrongWireType); }
    assert data[i..][size..] == data[i + size..];
    var l := LengthAt(data, i + size);
    if l.Err? { return Err(l.error); }
    var from := i + size + l.value.1;
    var post := from + l.value.0;
    assert data[i..][from - i..] == data[from..];
    assert data[i..][from - i..post - i] == data[from..post];
    if field == 1 {
      var kv := MapEntryAt(ReadBytes, data, from, post, []);
      if kv.Err? { return Err(kv.error); }
      return Ok((m.(strings := m.strings[kv.value.0 := kv.value.1]), post - i));
    }
    var ev := UnmarshalEvent(data[from..post], Event(map[]));
    if ev.Err? { return Err(ev.error); }
    return Ok((m.(events := m.events + [ev.value]), post - i));
  }

  /** Batch.Unmarshal */
  method UnmarshalBatch(data: Bytes, init: Batch) returns (r: Result<Batch>)
    ensures r == DecodeBatch(data, init)
  {
    hide BatchStep, Fields;
    var i, m := 0, init;
    assert data[0..] == data;
    while i < |data|
      invariant 0 <= i <= |data| && Fields(BatchStep, data[i..], m) == Fields(BatchStep, data, init)
      decreases |data| - i
    {
      NextField(BatchStep, data, i, m);
      var f := BatchFieldAt(data, i, m);
      if f.Err? { return Err(f.error); }
      m, i := f.value.0, i + f.value.1;
    }
    NoFields(BatchStep, data[i..], m);
    return Ok(m);
  }
}

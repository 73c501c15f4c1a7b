/** The Batch, Event and Value messages: what their encoders write and their decoders read. */
module Messages {
  import opened ByteStrings
  import opened Varints
  import opened Wire

  /** A Value's oneof; Unset is a nil interface. Doubles are their 64-bit patterns. */
  datatype Value =
    | Unset
    | Int32Value(i32: Int32)
    | Int64Value(i64: Int64)
    | Float64Value(bits: Uint64)
    | StringValue(str: Uint32)
    | BoolValue(flag: bool)
    | TimeValue(time: Int64)
    | JsonValue(json: Uint32)

  /** A map value may be a nil *Value: None. */
  datatype Event = Event(value: map<Uint32, Option<Value>>)

  datatype Batch = Batch(strings: map<Uint32, Bytes>, events: seq<Event>)

  // ---- fixed 64-bit little-endian ----

  function LittleEndian(v: nat, n: nat): (s: Bytes)
    ensures |s| == n
  {
    if n == 0 then [] else [v % 256] + LittleEndian(v / 256, n - 1)
  }

  function FromLittleEndian(s: Bytes): nat {
    if s == [] then 0 else s[0] + 256 * FromLittleEndian(s[1..])
  }

  lemma {:induction false} LittleEndianRoundTrip(v: nat, n: nat)
    requires v < Pow256(n)
    ensures FromLittleEndian(LittleEndian(v, n)) == v
  {
    if n > 0 {
      LittleEndianRoundTrip(v / 256, n - 1);
      assert LittleEndian(v, n)[1..] == LittleEndian(v / 256, n - 1);
    }
  }

  function ToUint32(x: int): Uint32 { x % TWO_32 }

  // ---- Value ----

  function ValueOf(field: Int32, v: nat): Value {
    if field == 1 then Int32Value(ToInt32(v))
    else if field == 2 then Int64Value(ToInt64(v))
    else if field == 4 then StringValue(ToUint32(v))
    else if field == 5 then BoolValue(v != 0)
    else if field == 6 then TimeValue(ToInt64(v))
    else JsonValue(ToUint32(v))
  }

  /** The accumulator's width in each varint case of Value.Unmarshal. */
  function WidthOf(field: Int32): nat {
    if field == 1 || field == 4 || field == 7 then 32 else 64
  }

  function ValuePayload(field: Int32, kind: nat, s: Bytes): (r: Result<(Value, nat)>)
    ensures r.Ok? ==> 1 <= r.value.1 <= |s|
  {
    if kind != (if field == 3 then 1 else 0) then Err(WrongWireType)
    else if field == 3 then
      if |s| < 8 then Err(UnexpectedEof) else Ok((Float64Value(ToUint64(FromLittleEndian(s[..8]))), 8))
    else
      match ReadVarint(s, WidthOf(field), 0, 0)
      case Err(e) => Err(e)
      case Ok(p) => Ok((ValueOf(field, p.0), p.1))
  }

  function ValueStep(s: Bytes, m: Value): Result<(Value, nat)> {
    match ReadTag(s)
    case Err(e) => Err(e)
    case Ok(t) =>
      if t.kind == 4 then Err(EndGroup)
      else if t.field <= 0 then Err(IllegalTag)
      else if t.field > 7 then SkipUnknown(s, m)
      else
        match ValuePayload(t.field, t.kind, s[t.size..])
        case Err(e) => Err(e)
        case Ok(p) => Ok((p.0, t.size + p.1))
  }

  function DecodeValue(s: Bytes, m: Value): Result<Value> { Fields(ValueStep, s, m) }

  // ---- map entries ----

  /** One entry of a map<uint32, V> field: `n` bytes are left of the entry, reads are bounded by the message. Wire
      types are not looked at, and a repeated key field is or-ed into the key. */
  function MapEntry<V>(read: Bytes -> Result<V>, s: Bytes, n: int, key: Uint32, val: V): Result<(Uint32, V)>
    decreases |s|
  {
    if n <= 0 then Ok((key, val))
    else
      match ReadTag(s)
      case Err(e) => Err(e)
      case Ok(t) =>
        if t.field == 1 then
          match ReadVarint(s[t.size..], 32, 0, key)
          case Err(e) => Err(e)
          case Ok(p) => MapEntry(read, s[t.size + p.1..], n - t.size - p.1, ToUint32(p.0), val)
        else if t.field == 2 then
          match ReadLength(s[t.size..])
          case Err(e) => Err(e)
          case Ok(p) =>
            var from := t.size + p.1;
            match read(s[from..from + p.0])
            case Err(e) => Err(e)
            case Ok(v) => MapEntry(read, s[from + p.0..], n - from - p.0, key, v)
        else
          match Skip(s)
          case Err(e) => Err(e)
          case Ok(w) => if w > n || w > |s| then Err(UnexpectedEof) else MapEntry(read, s[w..], n - w, key, val)
  }

  /** The value of a Batch.Strings entry is copied; that of an Event.Value entry is decoded into a new Value. */
  function ReadBytes(s: Bytes): Result<Bytes> { Ok(s) }

  function ReadValue(s: Bytes): Result<Option<Value>> {
    match DecodeValue(s, Unset)
    case Err(e) => Err(e)
    case Ok(v) => Ok(Some(v))
  }

  // ---- Event and Batch ----

  function EventStep(s: Bytes, m: Event): Result<(Event, nat)> {
    match ReadTag(s)
    case Err(e) => Err(e)
    case Ok(t) =>
      if t.kind == 4 then Err(EndGroup)
      else if t.field <= 0 then Err(IllegalTag)
      else if t.field != 1 then SkipUnknown(s, m)
      else if t.kind != 2 then Err(WrongWireType)
      else
        match ReadLength(s[t.size..])
        case Err(e) => Err(e)
        case Ok(p) =>
          match MapEntry(ReadValue, s[t.size + p.1..], p.0, 0, None)
          case Err(e) => Err(e)
          case Ok(kv) => Ok((Event(m.value[kv.0 := kv.1]), t.size + p.1 + p.0))
  }

  function DecodeEvent(s: Bytes, m: Event): Result<Event> { Fields(EventStep, s, m) }

  function BatchStep(s: Bytes, m: Batch): Result<(Batch, nat)> {
    match ReadTag(s)
    case Err(e) => Err(e)
    case Ok(t) =>
      if t.kind == 4 then Err(EndGroup)
      else if t.field <= 0 then Err(IllegalTag)
      else if t.field > 2 then SkipUnknown(s, m)
      else if t.kind != 2 then Err(WrongWireType)
      else
        match ReadLength(s[t.size..])
        case Err(e) => Err(e)
        case Ok(p) =>
          var from := t.size + p.1;
          if t.field == 1 then
            match MapEntry(ReadBytes, s[from..], p.0, 0, [])
            case Err(e) => Err(e)
            case Ok(kv) => Ok((m.(strings := m.strings[kv.0 := kv.1]), from + p.0))
          else
            match DecodeEvent(s[from..from + p.0], Event(map[]))
            case Err(e) => Err(e)
            case Ok(ev) => Ok((m.(events := m.events + [ev]), from + p.0))
  }

  function DecodeBatch(s: Bytes, m: Batch): Result<Batch> { Fields(BatchStep, s, m) }

  // ---- a decoded field does not depend on what follows ----

  lemma SkipUnknownStable<M>(s: Bytes, x: Bytes, m: M)
    requires SkipUnknown(s, m).Ok?
    ensures SkipUnknown(s + x, m) == SkipUnknown(s, m)
  {
    hide SkipFrom;
    SkipStable(s, x, 0, 0);
  }

  lemma ValueStepStable(s: Bytes, x: Bytes, m: Value)
    requires ValueStep(s, m).Ok?
    ensures ValueStep(s + x, m) == ValueStep(s, m)
  {
    hide ReadVarint, ReadTag, SkipUnknown, ValueOf, FromLittleEndian;
    ReadTagStable(s, x);
    var t := ReadTag(s).value;
    if t.field > 7 {
      SkipUnknownStable(s, x, m);
    } else {
      var rest := s[t.size..];
      assert (s + x)[t.size..] == rest + x;
      if t.field == 3 {
        assert (rest + x)[..8] == rest[..8];
      } else {
        ReadVarintStable(rest, x, WidthOf(t.field), 0, 0);
      }
    }
  }

  lemma ValueStepIsStable()
    ensures Stable(ValueStep)
  {
    forall s: Bytes, x: Bytes, m: Value | ValueStep(s, m).Ok?
      ensures ValueStep(s + x, m) == ValueStep(s, m)
    {
      ValueStepStable(s, x, m);
    }
  }

  /** One turn of the loop over a map entry: which field it meets and what it leaves to do. */
  lemma EntryKeyField<V>(read: Bytes -> Result<V>, s: Bytes, n: nat, key: Uint32, val: V, t: Tag, p: (nat, nat))
    requires n > 0 && ReadTag(s) == Ok(t) && t.field == 1 && t.size <= |s|
    requires ReadVarint(s[t.size..], 32, 0, key) == Ok(p) && t.size + p.1 <= |s|
    ensures MapEntry(read, s, n, key, val)
         == MapEntry(read, s[t.size + p.1..], n - t.size - p.1, ToUint32(p.0), val)
  {
    hide ReadVarint, ReadTag, ReadLength, SkipFrom;
  }

  lemma EntryValueField<V>(read: Bytes -> Result<V>, s: Bytes, n: nat, key: Uint32, val: V, t: Tag, p: (nat, nat))
    requires n > 0 && ReadTag(s) == Ok(t) && t.field == 2 && t.size <= |s|
    requires ReadLength(s[t.size..]) == Ok(p) && t.size + p.1 + p.0 <= |s|
    ensures var from := t.size + p.1;
      MapEntry(read, s, n, key, val)
      == match read(s[from..from + p.0])
         case Err(e) => Err(e)
         case Ok(v) => MapEntry(read, s[from + p.0..], n - from - p.0, key, v)
  {
    hide ReadVarint, ReadTag, ReadLength, SkipFrom;
  }

  lemma EntryOtherField<V>(read: Bytes -> Result<V>, s: Bytes, n: nat, key: Uint32, val: V, t: Tag, w: nat)
    requires n > 0 && ReadTag(s) == Ok(t) && t.field != 1 && t.field != 2 && Skip(s) == Ok(w) && w <= |s|
    ensures MapEntry(read, s, n, key, val)
         == if w > n then Err(UnexpectedEof) else MapEntry(read, s[w..], n - w, key, val)
  {
    hide ReadVarint, ReadTag, ReadLength, SkipFrom;
  }

  /** An entry that can be read starts with a field that can. */
  lemma EntryHead<V>(read: Bytes -> Result<V>, s: Bytes, n: nat, key: Uint32, val: V)
    requires n > 0 && MapEntry(read, s, n, key, val).Ok?
    ensures ReadTag(s).Ok? && 1 <= ReadTag(s).value.size <= |s|
    ensures var t := ReadTag(s).value;
      && (t.field == 1 ==> ReadVarint(s[t.size..], 32, 0, key).Ok?)
      && (t.field == 2 ==> ReadLength(s[t.size..]).Ok?)
      && (t.field != 1 && t.field != 2 ==> Skip(s).Ok? && Skip(s).value <= |s|)
  {
    hide ReadVarint, ReadTag, ReadLength, SkipFrom;
  }

  lemma KeyFieldStable<V>(read: Bytes -> Result<V>, s: Bytes, x: Bytes, n: nat, key: Uint32, val: V, t: Tag)
    returns (w: nat, key': Uint32)
    requires n > 0 && ReadTag(s) == Ok(t) && t.field == 1 && t.size <= |s| && ReadVarint(s[t.size..], 32, 0, key).Ok?
    ensures 1 <= w <= |s|
    ensures MapEntry(read, s, n, key, val) == MapEntry(read, s[w..], n - w, key', val)
    ensures MapEntry(read, s + x, n, key, val) == MapEntry(read, s[w..] + x, n - w, key', val)
  {
    hide MapEntry, ReadVarint, ReadTag;
    ReadTagStable(s, x);
    var rest := s[t.size..];
    assert (s + x)[t.size..] == rest + x;
    ReadVarintStable(rest, x, 32, 0, key);
    var p := ReadVarint(rest, 32, 0, key).value;
    w, key' := t.size + p.1, ToUint32(p.0);
    assert (s + x)[w..] == s[w..] + x;
    EntryKeyField(read, s, n, key, val, t, p);
    EntryKeyField(read, s + x, n, key, val, t, p);
  }

  lemma ValueFieldStable<V>(read: Bytes -> Result<V>, s: Bytes, x: Bytes, n: nat, key: Uint32, val: V, t: Tag)
    returns (w: nat, val': V)
    requires n > 0 && ReadTag(s) == Ok(t) && t.field == 2 && t.size <= |s| && ReadLength(s[t.size..]).Ok?
    requires MapEntry(read, s, n, key, val).Ok?
    ensures 1 <= w <= |s|
    ensures MapEntry(read, s, n, key, val) == MapEntry(read, s[w..], n - w, key, val')
    ensures MapEntry(read, s + x, n, key, val) == MapEntry(read, s[w..] + x, n - w, key, val')
  {
    hide MapEntry, ReadVarint, ReadTag, ReadLength;
    ReadTagStable(s, x);
    var rest := s[t.size..];
    assert (s + x)[t.size..] == rest + x;
    ReadLengthStable(rest, x);
    var p := ReadLength(rest).value;
    var from := t.size + p.1;
    w := from + p.0;
    assert (s + x)[from..w] == s[from..w] && (s + x)[w..] == s[w..] + x;
    EntryValueField(read, s, n, key, val, t, p);
    EntryValueField(read, s + x, n, key, val, t, p);
    val' := read(s[from..w]).value;
  }

  lemma OtherFieldStable<V>(read: Bytes -> Result<V>, s: Bytes, x: Bytes, n: nat, key: Uint32, val: V, t: Tag)
    returns (w: nat)
    requires n > 0 && ReadTag(s) == Ok(t) && t.field != 1 && t.field != 2 && Skip(s).Ok? && Skip(s).value <= |s|
    requires MapEntry(read, s, n, key, val).Ok?
    ensures 1 <= w <= |s|
    ensures MapEntry(read, s, n, key, val) == MapEntry(read, s[w..], n - w, key, val)
    ensures MapEntry(read, s + x, n, key, val) == MapEntry(read, s[w..] + x, n - w, key, val)
  {
    hide MapEntry, SkipFrom, ReadTag;
    ReadTagStable(s, x);
    SkipStable(s, x, 0, 0);
    w := Skip(s).value;
    assert (s + x)[w..] == s[w..] + x;
    EntryOtherField(read, s, n, key, val, t, w);
    EntryOtherField(read, s + x, n, key, val, t, w);
  }

  lemma {:induction false} MapEntryStable<V>(read: Bytes -> Result<V>, s: Bytes, x: Bytes, n: int, key: Uint32, val: V)
    requires MapEntry(read, s, n, key, val).Ok? && n <= |s|
    ensures MapEntry(read, s + x, n, key, val) == MapEntry(read, s, n, key, val)
    decreases |s|
  {
    hide MapEntry, ReadVarint, ReadTag, ReadLength, SkipFrom;
    if n > 0 {
      EntryHead(read, s, n, key, val);
      var t := ReadTag(s).value;
      if t.field == 1 {
        var w, key' := KeyFieldStable(read, s, x, n, key, val, t);
        MapEntryStable(read, s[w..], x, n - w, key', val);
      } else if t.field == 2 {
        var w, val' := ValueFieldStable(read, s, x, n, key, val, t);
        MapEntryStable(read, s[w..], x, n - w, key, val');
      } else {
        var w := OtherFieldStable(read, s, x, n, key, val, t);
        MapEntryStable(read, s[w..], x, n - w, key, val);
      }
    } else {
      EntryOver(read, s, n, key, val);
      EntryOver(read, s + x, n, key, val);
    }
  }

  lemma EntryOver<V>(read: Bytes -> Result<V>, s: Bytes, n: int, key: Uint32, val: V)
    requires n <= 0
    ensures MapEntry(read, s, n, key, val) == Ok((key, val))
  {
  }

  lemma EventStepStable(s: Bytes, x: Bytes, m: Event)
    requires EventStep(s, m).Ok?
    ensures EventStep(s + x, m) == EventStep(s, m)
  {
    hide ReadVarint, ReadTag, ReadLength, SkipUnknown, MapEntry;
    ReadTagStable(s, x);
    var t := ReadTag(s).value;
    if t.field != 1 {
      SkipUnknownStable(s, x, m);
    } else {
      var rest := s[t.size..];
      assert (s + x)[t.size..] == rest + x;
      ReadLengthStable(rest, x);
      var from := t.size + ReadLength(rest).value.1;
      assert (s + x)[from..] == s[from..] + x;
      MapEntryStable(ReadValue, s[from..], x, ReadLength(rest).value.0, 0, None);
    }
  }

  lemma EventStepIsStable()
    ensures Stable(EventStep)
  {
    forall s: Bytes, x: Bytes, m: Event | EventStep(s, m).Ok?
      ensures EventStep(s + x, m) == EventStep(s, m)
    {
      EventStepStable(s, x, m);
    }
  }

  lemma BatchStepStable(s: Bytes, x: Bytes, m: Batch)
    requires BatchStep(s, m).Ok?
    ensures BatchStep(s + x, m) == BatchStep(s, m)
  {
    hide ReadVarint, ReadTag, ReadLength, SkipUnknown, MapEntry, DecodeEvent;
    ReadTagStable(s, x);
    var t := ReadTag(s).value;
    if t.field > 2 {
      SkipUnknownStable(s, x, m);
    } else {
      var rest := s[t.size..];
      assert (s + x)[t.size..] == rest + x;
      ReadLengthStable(rest, x);
      var p := ReadLength(rest).value;
      var from := t.size + p.1;
      assert (s + x)[from..] == s[from..] + x;
      assert (s + x)[from..from + p.0] == s[from..from + p.0];
      if t.field == 1 { MapEntryStable(ReadBytes, s[from..], x, p.0, 0, []); }
    }
  }

  lemma BatchStepIsStable()
    ensures Stable(BatchStep)
  {
    forall s: Bytes, x: Bytes, m: Batch | BatchStep(s, m).Ok?
      ensures BatchStep(s + x, m) == BatchStep(s, m)
    {
      BatchStepStable(s, x, m);
    }
  }

  // ---- what is refused ----

  /** Unmarshalling refuses an end of group, a field number that is not positive, and a known field of the wrong wire
      type, whatever has been decoded before. */
  lemma BatchRefuses(s: Bytes, m: Batch, t: Tag)
    requires s != [] && ReadTag(s) == Ok(t)
    ensures t.kind == 4 ==> DecodeBatch(s, m) == Err(EndGroup)
    ensures t.kind != 4 && t.field <= 0 ==> DecodeBatch(s, m) == Err(IllegalTag)
    ensures t.kind !in {2, 4} && 1 <= t.field <= 2 ==> DecodeBatch(s, m) == Err(WrongWireType)
  {
    hide ReadTag, ReadLength, SkipUnknown, MapEntry, DecodeEvent;
  }

  lemma EventRefuses(s: Bytes, m: Event, t: Tag)
    requires s != [] && ReadTag(s) == Ok(t)
    ensures t.kind == 4 ==> DecodeEvent(s, m) == Err(EndGroup)
    ensures t.kind != 4 && t.field <= 0 ==> DecodeEvent(s, m) == Err(IllegalTag)
    ensures t.kind !in {2, 4} && t.field == 1 ==> DecodeEvent(s, m) == Err(WrongWireType)
  {
    hide ReadTag, ReadLength, SkipUnknown, MapEntry;
  }

  lemma ValueRefuses(s: Bytes, m: Value, t: Tag)
    requires s != [] && ReadTag(s) == Ok(t)
    ensures t.kind == 4 ==> DecodeValue(s, m) == Err(EndGroup)
    ensures t.kind != 4 && t.field <= 0 ==> DecodeValue(s, m) == Err(IllegalTag)
    ensures t.kind !in {0, 4} && t.field in {1, 2, 4, 5, 6, 7} ==> DecodeValue(s, m) == Err(WrongWireType)
    ensures t.kind !in {1, 4} && t.field == 3 ==> DecodeValue(s, m) == Err(WrongWireType)
    ensures t.kind == 1 && t.field == 3 && |s| < t.size + 8 ==> DecodeValue(s, m) == Err(UnexpectedEof)
  {
    hide ReadTag, ReadVarint, SkipUnknown;
  }

  // ---- unknown fields are transparent ----

  lemma SkipUnknownOf<M>(f: Field, rest: Bytes, m: M)
    requires WellFormed(f) && |Encode(f)| < TWO_63
    ensures SkipUnknown(Encode(f) + rest, m) == Ok((m, |Encode(f)|))
    ensures ReadTag(Encode(f) + rest).Ok?
    ensures ReadTag(Encode(f) + rest).value.field == f.number && ReadTag(Encode(f) + rest).value.kind != 4
    ensures Encode(f) != []
  {
    hide SkipFrom, ReadTag, Varint;
    SkipField(f, rest, 0, 0);
    var kind := match f
      case VarintField(_, _) => 0
      case Fixed64Field(_, _) => 1
      case BytesField(_, _) => 2
      case GroupField(_, _) => 3
      case Fixed32Field(_, _) => 5;
    var tag := TagBytes(f.number, kind);
    var body := Encode(f)[|tag|..];
    assert Encode(f) + rest == tag + (body + rest);
    ReadTagOf(f.number, kind, body + rest);
  }

  /** A field the message type does not know, put after any decodable prefix, changes nothing: not the result, not
      even the error when what follows is malformed. */
  lemma UnknownInBatch(a: Bytes, f: Field, b: Bytes, m: Batch)
    requires DecodeBatch(a, m).Ok?
    requires WellFormed(f) && f.number > 2 && |Encode(f)| < TWO_63
    ensures DecodeBatch(a + Encode(f) + b, m) == DecodeBatch(a + b, m)
  {
    hide SkipUnknown, ReadTag, Encode;
    BatchStepIsStable();
    var u, m' := Encode(f), DecodeBatch(a, m).value;
    FieldsOfConcat(BatchStep, a, b, m);
    FieldsOfConcat(BatchStep, a, u + b, m);
    assert a + u + b == a + (u + b);
    SkipUnknownOf(f, b, m');
    assert (u + b)[|u|..] == b;
  }

  lemma UnknownInEvent(a: Bytes, f: Field, b: Bytes, m: Event)
    requires DecodeEvent(a, m).Ok?
    requires WellFormed(f) && f.number > 1 && |Encode(f)| < TWO_63
    ensures DecodeEvent(a + Encode(f) + b, m) == DecodeEvent(a + b, m)
  {
    hide SkipUnknown, ReadTag, Encode;
    EventStepIsStable();
    var u, m' := Encode(f), DecodeEvent(a, m).value;
    FieldsOfConcat(EventStep, a, b, m);
    FieldsOfConcat(EventStep, a, u + b, m);
    assert a + u + b == a + (u + b);
    SkipUnknownOf(f, b, m');
    assert (u + b)[|u|..] == b;
  }

  lemma UnknownInValue(a: Bytes, f: Field, b: Bytes, m: Value)
    requires DecodeValue(a, m).Ok?
    requires WellFormed(f) && f.number > 7 && |Encode(f)| < TWO_63
    ensures DecodeValue(a + Encode(f) + b, m) == DecodeValue(a + b, m)
  {
    hide SkipUnknown, ReadTag, Encode;
    ValueStepIsStable();
    var u, m' := Encode(f), DecodeValue(a, m).value;
    FieldsOfConcat(ValueStep, a, b, m);
    FieldsOfConcat(ValueStep, a, u + b, m);
    assert a + u + b == a + (u + b);
    SkipUnknownOf(f, b, m');
    assert (u + b)[|u|..] == b;
  }

  lemma UnknownInMapEntry<V>(read: Bytes -> Result<V>, f: Field, s: Bytes, n: nat, key: Uint32, val: V)
    requires WellFormed(f) && f.number > 2 && |Encode(f)| < TWO_63
    ensures MapEntry(read, Encode(f) + s, |Encode(f)| + n, key, val) == MapEntry(read, s, n, key, val)
  {
    hide SkipFrom, ReadTag, Encode;
    SkipUnknownOf(f, s, key);
    assert (Encode(f) + s)[|Encode(f)|..] == s;
  }

  // ---- what the encoders write ----

  function ValueBytes(v: Value): Bytes {
    match v
    case Unset => []
    case Int32Value(x) => [0x08] + Varint(ToUint64(x))
    case Int64Value(x) => [0x10] + Varint(ToUint64(x))
    case Float64Value(b) => [0x19] + LittleEndian(b, 8)
    case StringValue(r) => [0x20] + Varint(r)
    case BoolValue(b) => [0x28] + [if b then 1 else 0]
    case TimeValue(x) => [0x30] + Varint(ToUint64(x))
    case JsonValue(r) => [0x38] + Varint(r)
  }

  /** A field of wire type 2: tag byte, length, payload. */
  function Delimited(tag: Byte, payload: Bytes): Bytes {
    [tag] + (Varint(|payload|) + payload)
  }

  function KeyBytes(k: Uint32): Bytes { [0x08] + Varint(k) }

  /** The optional value part of a map entry. */
  function StringPart(v: Bytes): Bytes { if v == [] then [] else Delimited(0x12, v) }
  function ValuePart(v: Option<Value>): Bytes { if v.None? then [] else Delimited(0x12, ValueBytes(v.value)) }

  function StringEntryBytes(k: Uint32, v: Bytes): Bytes { Delimited(0x0a, KeyBytes(k) + StringPart(v)) }
  function ValueEntryBytes(k: Uint32, v: Option<Value>): Bytes { Delimited(0x0a, KeyBytes(k) + ValuePart(v)) }

  // ---- round trips, field by field ----

  lemma OneByteTag(b: Byte, rest: Bytes)
    requires 8 <= b < 128
    ensures ReadTag([b] + rest) == Ok(Tag(b / 8, b % 8, 1))
  {
    hide ReadVarint;
    VarintRoundTrip(b, rest);
  }

  lemma ValueStepVarint(tag: Byte, u: Uint64, rest: Bytes, m: Value)
    requires tag in {0x08, 0x10, 0x20, 0x28, 0x30, 0x38}
    ensures ValueStep([tag] + Varint(u) + rest, m)
         == Ok((ValueOf(tag / 8, if WidthOf(tag / 8) == 32 then u % TWO_32 else u), 1 + |Varint(u)|))
  {
    hide ReadVarint, ReadTag, Varint, ValueOf, SkipUnknown;
    var s := [tag] + Varint(u) + rest;
    assert s == [tag] + (Varint(u) + rest);
    OneByteTag(tag, Varint(u) + rest);
    assert s[1..] == Varint(u) + rest;
    VarintRoundTrip(u, rest);
  }

  lemma ValueStepFixed(b: Uint64, rest: Bytes, m: Value)
    ensures ValueStep([0x19] + LittleEndian(b, 8) + rest, m) == Ok((Float64Value(b), 9))
  {
    hide ReadVarint, ReadTag, FromLittleEndian, LittleEndian, SkipUnknown;
    var s, p := [0x19] + LittleEndian(b, 8) + rest, LittleEndian(b, 8);
    assert s == [0x19] + (p + rest);
    OneByteTag(0x19, p + rest);
    assert s[1..] == p + rest && (p + rest)[..8] == p;
    Pow256Values();
    LittleEndianRoundTrip(b, 8);
  }

  /** The integer conversions on the way out and back in cancel. */
  lemma Int32RoundTrip(x: Int32) ensures ToInt32(ToUint64(x) % TWO_32) == x { }

  lemma Int64RoundTrip(x: Int64) ensures ToInt64(ToUint64(x)) == x { }

  lemma Uint32RoundTrip(r: Uint32) ensures ToUint32(r % TWO_32) == r { }

  lemma ValueStepRoundTrip(v: Value, rest: Bytes, m: Value)
    requires v != Unset
    ensures ValueStep(ValueBytes(v) + rest, m) == Ok((v, |ValueBytes(v)|))
  {
    hide ValueStep, Varint, LittleEndian, ToInt32, ToInt64, ToUint64, ToUint32;
    match v
    case Int32Value(x) =>
      Int32RoundTrip(x);
      ValueStepVarint(0x08, ToUint64(x), rest, m);
    case Int64Value(x) =>
      Int64RoundTrip(x);
      ValueStepVarint(0x10, ToUint64(x), rest, m);
    case Float64Value(b) => ValueStepFixed(b, rest, m);
    case StringValue(r) =>
      Uint32RoundTrip(r);
      ValueStepVarint(0x20, r, rest, m);
    case BoolValue(b) =>
      var d := if b then 1 else 0;
      assert Varint(d) == [d] by { VarintCases(d); }
      ValueStepVarint(0x28, d, rest, m);
    case TimeValue(x) =>
      Int64RoundTrip(x);
      ValueStepVarint(0x30, ToUint64(x), rest, m);
    case JsonValue(r) =>
      Uint32RoundTrip(r);
      ValueStepVarint(0x38, r, rest, m);
  }

  /** Value.Unmarshal undoes Value.Marshal. */
  lemma ValueRoundTrip(v: Value)
    ensures DecodeValue(ValueBytes(v), Unset) == Ok(v)
  {
    hide ReadTag, ValuePayload, SkipUnknown;
    var s := ValueBytes(v);
    if v != Unset {
      assert s + [] == s;
      ValueStepRoundTrip(v, [], Unset);
      OneField(ValueStep, s, Unset);
    }
  }

  /** A message of a single field. */
  lemma OneField<M>(step: (Bytes, M) -> Result<(M, nat)>, s: Bytes, m: M)
    requires s != [] && step(s, m).Ok? && step(s, m).value.1 == |s|
    ensures Fields(step, s, m) == Ok(step(s, m).value.0)
  {
    assert s[|s|..] == [];
  }

  lemma DelimitedHead(tag: Byte, payload: Bytes, rest: Bytes)
    requires 8 <= tag < 128 && |payload| < TWO_63
    ensures var s := Delimited(tag, payload) + rest;
      && ReadTag(s) == Ok(Tag(tag / 8, tag % 8, 1))
      && ReadLength(s[1..]) == Ok((|payload|, |Varint(|payload|)|))
      && s[1 + |Varint(|payload|)|..] == payload + rest
      && s[1 + |Varint(|payload|)|..][..|payload|] == payload
      && |Delimited(tag, payload)| == 1 + |Varint(|payload|)| + |payload|
  {
    hide ReadVarint, ReadTag, ReadLength, Varint;
    var size := Varint(|payload|);
    var s := Delimited(tag, payload) + rest;
    assert s == [tag] + (size + (payload + rest));
    OneByteTag(tag, size + (payload + rest));
    assert s[1..] == size + (payload + rest);
    ReadLengthOf(|payload|, payload + rest);
    assert s[1 + |size|..] == payload + rest;
  }

  /** The key of a map entry as written. */
  lemma KeyReads<V>(read: Bytes -> Result<V>, k: Uint32, rest: Bytes, n: nat, init: V)
    ensures MapEntry(read, KeyBytes(k) + rest, |KeyBytes(k)| + n, 0, init) == MapEntry(read, rest, n, k, init)
  {
    hide ReadVarint, ReadTag, Varint, MapEntry;
    var size := Varint(k);
    var s := [0x08] + (size + rest);
    assert KeyBytes(k) + rest == s;
    OneByteTag(0x08, size + rest);
    assert s[1..] == size + rest;
    VarintRoundTrip(k, rest);
    EntryKeyField(read, s, |KeyBytes(k)| + n, 0, init, Tag(1, 0, 1), (k, |size|));
    assert s[1 + |size|..] == rest;
  }

  /** The value of a map entry as written. */
  lemma ValueReads<V>(read: Bytes -> Result<V>, payload: Bytes, rest: Bytes, n: nat, k: Uint32, init: V, v: V)
    requires |payload| < TWO_63 && read(payload) == Ok(v)
    ensures var part := Delimited(0x12, payload);
      MapEntry(read, part + rest, |part| + n, k, init) == MapEntry(read, rest, n, k, v)
  {
    hide ReadVarint, ReadTag, ReadLength, Varint, MapEntry, Delimited;
    var part, size := Delimited(0x12, payload), |Varint(|payload|)|;
    var s := part + rest;
    DelimitedHead(0x12, payload, rest);
    var from := 1 + size;
    assert s[from..from + |payload|] == s[from..][..|payload|];
    EntryValueField(read, s, |part| + n, k, init, Tag(2, 2, 1), (|payload|, size));
    assert s[|part|..] == rest;
  }

  /** A map entry as written is read back: the key, then the value part if there is one. */
  lemma EntryRoundTrip<V>(read: Bytes -> Result<V>, k: Uint32, part: Bytes, payload: Bytes, rest: Bytes, init: V, v: V)
    requires (part == [] && v == init) || (part == Delimited(0x12, payload) && read(payload) == Ok(v))
    requires |payload| < TWO_63
    ensures MapEntry(read, KeyBytes(k) + part + rest, |KeyBytes(k) + part|, 0, init) == Ok((k, v))
  {
    hide MapEntry, KeyBytes, Delimited;
    assert KeyBytes(k) + part + rest == KeyBytes(k) + (part + rest);
    KeyReads(read, k, part + rest, |part|, init);
    EntryOver(read, rest, 0, k, v);
    if part == [] && v == init {
      assert part + rest == rest;
    } else {
      ValueReads(read, payload, rest, 0, k, init, v);
    }
  }

  lemma EventStepRoundTrip(k: Uint32, v: Option<Value>, rest: Bytes, m: Event)
    requires |ValueEntryBytes(k, v)| < TWO_63
    ensures EventStep(ValueEntryBytes(k, v) + rest, m) == Ok((Event(m.value[k := v]), |ValueEntryBytes(k, v)|))
  {
    hide ReadTag, ReadLength, MapEntry, KeyBytes, ValueBytes;
    var body := KeyBytes(k) + ValuePart(v);
    DelimitedHead(0x0a, body, rest);
    if v.None? {
      EntryRoundTrip(ReadValue, k, [], [], rest, None, v);
    } else {
      var payload := ValueBytes(v.value);
      ValueRoundTrip(v.value);
      EntryRoundTrip(ReadValue, k, ValuePart(v), payload, rest, None, v);
    }
  }

  lemma BatchStepString(k: Uint32, v: Bytes, rest: Bytes, m: Batch)
    requires |StringEntryBytes(k, v)| < TWO_63
    ensures BatchStep(StringEntryBytes(k, v) + rest, m)
         == Ok((m.(strings := m.strings[k := v]), |StringEntryBytes(k, v)|))
  {
    hide ReadTag, ReadLength, MapEntry, KeyBytes, DecodeEvent;
    var body := KeyBytes(k) + StringPart(v);
    DelimitedHead(0x0a, body, rest);
    EntryRoundTrip(ReadBytes, k, StringPart(v), v, rest, [], v);
  }

  lemma BatchStepEvent(s: Bytes, ev: Event, rest: Bytes, m: Batch)
    requires |s| < TWO_63 && DecodeEvent(s, Event(map[])) == Ok(ev)
    ensures BatchStep(Delimited(0x12, s) + rest, m) == Ok((m.(events := m.events + [ev]), |Delimited(0x12, s)|))
  {
    hide ReadTag, ReadLength, MapEntry, DecodeEvent;
    DelimitedHead(0x12, s, rest);
    var all := Delimited(0x12, s) + rest;
    var from := 1 + |Varint(|s|)|;
    assert all[from..from + |s|] == all[from..][..|s|];
  }

  // ---- the bytes on the wire ----

  /** Each case of the oneof under its own field number; a negative int32 takes ten bytes. */
  lemma ValueExamples()
    ensures ValueBytes(Int32Value(-1)) == [0x08, 255, 255, 255, 255, 255, 255, 255, 255, 255, 1]
    ensures ValueBytes(Int64Value(300)) == [0x10, 0xAC, 0x02]
    ensures ValueBytes(Float64Value(0x3FF0_0000_0000_0000)) == [0x19, 0, 0, 0, 0, 0, 0, 0xF0, 0x3F]
    ensures ValueBytes(StringValue(5)) == [0x20, 5]
    ensures ValueBytes(BoolValue(true)) == [0x28, 1]
    ensures ValueBytes(TimeValue(7)) == [0x30, 7]
    ensures ValueBytes(JsonValue(9)) == [0x38, 9]
  {
    hide Varint, LittleEndian;
    LongestVarint();
    VarintCases(300);
    VarintCases(2);
    VarintCases(5);
    VarintCases(7);
    VarintCases(9);
    TwoBytes();
    SixZeroBytes(0x3FF0);
  }

  lemma TwoBytes()
    ensures LittleEndian(0x3FF0, 2) == [0xF0, 0x3F]
  {
    assert LittleEndian(0x3F, 1) == [0x3F];
  }

  lemma SixZeroBytes(v: nat)
    ensures LittleEndian(0x1_0000_0000_0000 * v, 8) == [0, 0, 0, 0, 0, 0] + LittleEndian(v, 2)
  {
    assert LittleEndian(0x100 * v, 3) == [0] + LittleEndian(v, 2);
    assert LittleEndian(0x1_0000 * v, 4) == [0] + LittleEndian(0x100 * v, 3);
    assert LittleEndian(0x100_0000 * v, 5) == [0] + LittleEndian(0x1_0000 * v, 4);
    assert LittleEndian(0x1_0000_0000 * v, 6) == [0] + LittleEndian(0x100_0000 * v, 5);
    assert LittleEndian(0x100_0000_0000 * v, 7) == [0] + LittleEndian(0x1_0000_0000 * v, 6);
  }

  lemma LongestVarint()
    ensures Varint(0xFFFF_FFFF_FFFF_FFFF) == [255, 255, 255, 255, 255, 255, 255, 255, 255, 1]
  {
    hide Varint;
    VarintCases(1);
    VarintCases(0xFF);
    VarintCases(0x7FFF);
    VarintCases(0x3F_FFFF);
    VarintCases(0x1FFF_FFFF);
    VarintCases(0xF_FFFF_FFFF);
    VarintCases(0x7FF_FFFF_FFFF);
    VarintCases(0x3_FFFF_FFFF_FFFF);
    VarintCases(0x1FF_FFFF_FFFF_FFFF);
    VarintCases(0xFFFF_FFFF_FFFF_FFFF);
  }

  lemma ShortDelimited(tag: Byte, payload: Bytes)
    requires |payload| < 128
    ensures Delimited(tag, payload) == [tag, |payload|] + payload
  {
    hide Varint;
    VarintCases(|payload|);
  }

  lemma ShortKey(k: Uint32)
    requires k < 128
    ensures KeyBytes(k) == [0x08, k]
  {
    hide Varint;
    VarintCases(k);
  }

  /** A map entry: tag, length, key, and the value unless there is none. */
  lemma StringEntryExamples()
    ensures StringEntryBytes(1, [97]) == [0x0a, 5, 0x08, 1, 0x12, 1, 97]
    ensures StringEntryBytes(1, []) == [0x0a, 2, 0x08, 1]
  {
    hide Delimited, KeyBytes;
    ShortKey(1);
    ShortDelimited(0x12, [97]);
    assert StringPart([97]) == [0x12, 1, 97] && StringPart([]) == [];
    var full, bare := [0x08, 1] + [0x12, 1, 97], [0x08, 1] + [];
    ShortDelimited(0x0a, full);
    ShortDelimited(0x0a, bare);
    assert [0x0a, 5] + full == [0x0a, 5, 0x08, 1, 0x12, 1, 97] && [0x0a, 2] + bare == [0x0a, 2, 0x08, 1];
  }

  lemma ValueEntryExamples()
    ensures ValueEntryBytes(2, Some(BoolValue(false))) == [0x0a, 6, 0x08, 2, 0x12, 2, 0x28, 0]
    ensures ValueEntryBytes(2, None) == [0x0a, 2, 0x08, 2]
  {
    hide Delimited, KeyBytes;
    ShortKey(2);
    assert ValueBytes(BoolValue(false)) == [0x28, 0];
    ShortDelimited(0x12, [0x28, 0]);
    assert ValuePart(Some(BoolValue(false))) == [0x12, 2, 0x28, 0] && ValuePart(None) == [];
    var full, bare := [0x08, 2] + [0x12, 2, 0x28, 0], [0x08, 2] + [];
    ShortDelimited(0x0a, full);
    ShortDelimited(0x0a, bare);
    assert [0x0a, 6] + full == [0x0a, 6, 0x08, 2, 0x12, 2, 0x28, 0] && [0x0a, 2] + bare == [0x0a, 2, 0x08, 2];
  }
}

/** Batches from a sender with a later schema: fields this version does not know stand between the known ones at every
    level, inside the length-delimited parts too, and none of them changes what is decoded. */
module LaterSchemas {
  import opened ByteStrings
  import opened Orders
  import opened Varints
  import opened Wire
  import opened Messages
  import Marshal

  /** A message is a run of parts this version knows and fields it does not. */
  datatype Piece<+K> = Known(part: K) | Unknown(field: Field)

  function Text<K>(ps: seq<Piece<K>>, f: K -> Bytes): Bytes {
    if ps == [] then []
    else (match ps[0] case Known(x) => f(x) case Unknown(u) => Encode(u)) + Text(ps[1..], f)
  }

  /** What the known parts amount to, the unknown fields left aside. */
  function Meant<K, M>(ps: seq<Piece<K>>, g: (M, K) -> M, acc: M): M {
    if ps == [] then acc
    else Meant(ps[1..], g, match ps[0] case Known(x) => g(acc, x) case Unknown(_) => acc)
  }

  predicate UnknownTo(known: nat, u: Field) { WellFormed(u) && u.number > known }

  predicate AllUnknown(known: nat, us: seq<Field>) { forall i :: 0 <= i < |us| ==> UnknownTo(known, us[i]) }

  predicate StrangersBeyond<K>(known: nat, ps: seq<Piece<K>>) {
    forall i :: 0 <= i < |ps| && ps[i].Unknown? ==> UnknownTo(known, ps[i].field)
  }

  // ---- one level ----

  /** The step skips every field beyond the known numbers. */
  ghost predicate SkipsBeyond<M(!new)>(step: (Bytes, M) -> Result<(M, nat)>, known: nat) {
    forall u: Field, rest: Bytes, m: M :: UnknownTo(known, u) && |Encode(u)| < TWO_63 ==>
      step(Encode(u) + rest, m) == Ok((m, |Encode(u)|))
  }

  /** The step reads the part, whatever follows it. */
  ghost predicate StepsOver<K, M(!new)>(step: (Bytes, M) -> Result<(M, nat)>, f: K -> Bytes, g: (M, K) -> M, x: K) {
    f(x) != [] && forall rest: Bytes, m: M :: step(f(x) + rest, m) == Ok((g(m, x), |f(x)|))
  }

  lemma EncodeNonEmpty(u: Field)
    requires WellFormed(u)
    ensures Encode(u) != []
  {
    hide Varint, WellFormed;
  }

  lemma {:induction false} PiecesDecode<K, M(!new)>(step: (Bytes, M) -> Result<(M, nat)>, known: nat, ps: seq<Piece<K>>,
      f: K -> Bytes, g: (M, K) -> M, acc: M)
    requires SkipsBeyond(step, known) && StrangersBeyond(known, ps) && |Text(ps, f)| < TWO_63
    requires forall i :: 0 <= i < |ps| && ps[i].Known? ==> StepsOver(step, f, g, ps[i].part)
    ensures Fields(step, Text(ps, f), acc) == Ok(Meant(ps, g, acc))
    decreases |ps|
  {
    hide WellFormed, Encode;
    if ps != [] {
      var head := match ps[0] case Known(x) => f(x) case Unknown(u) => Encode(u);
      var next := match ps[0] case Known(x) => g(acc, x) case Unknown(_) => acc;
      var tail := Text(ps[1..], f);
      PiecesDecode(step, known, ps[1..], f, g, next);
      if ps[0].Known? {
        assert StepsOver(step, f, g, ps[0].part);
      } else {
        assert UnknownTo(known, ps[0].field);
        EncodeNonEmpty(ps[0].field);
      }
      assert head != [] && step(head + tail, acc) == Ok((next, |head|));
      assert (head + tail)[|head|..] == tail;
    }
  }

  lemma ValueStepSkips()
    ensures SkipsBeyond(ValueStep, 7)
  {
    hide SkipUnknown, ReadTag, Encode, WellFormed;
    forall u: Field, rest: Bytes, m: Value | UnknownTo(7, u) && |Encode(u)| < TWO_63
      ensures ValueStep(Encode(u) + rest, m) == Ok((m, |Encode(u)|))
    {
      SkipUnknownOf(u, rest, m);
    }
  }

  lemma EventStepSkips()
    ensures SkipsBeyond(EventStep, 1)
  {
    hide SkipUnknown, ReadTag, Encode, WellFormed;
    forall u: Field, rest: Bytes, m: Event | UnknownTo(1, u) && |Encode(u)| < TWO_63
      ensures EventStep(Encode(u) + rest, m) == Ok((m, |Encode(u)|))
    {
      SkipUnknownOf(u, rest, m);
    }
  }

  lemma BatchStepSkips()
    ensures SkipsBeyond(BatchStep, 2)
  {
    hide SkipUnknown, ReadTag, Encode, WellFormed;
    forall u: Field, rest: Bytes, m: Batch | UnknownTo(2, u) && |Encode(u)| < TWO_63
      ensures BatchStep(Encode(u) + rest, m) == Ok((m, |Encode(u)|))
    {
      SkipUnknownOf(u, rest, m);
    }
  }

  // ---- values ----

  type LaterValue = seq<Piece<Value>>

  function ValueText(lv: LaterValue): Bytes { Text(lv, ValueBytes) }

  /** The last case of the oneof that was set. */
  function ValueMeant(lv: LaterValue): Value { Meant(lv, (_: Value, v: Value) => v, Unset) }

  predicate ValueOk(lv: LaterValue) {
    StrangersBeyond(7, lv) && forall i :: 0 <= i < |lv| && lv[i].Known? ==> lv[i].part != Unset
  }

  lemma LaterValueDecodes(lv: LaterValue)
    requires ValueOk(lv) && |ValueText(lv)| < TWO_63
    ensures DecodeValue(ValueText(lv), Unset) == Ok(ValueMeant(lv))
  {
    hide ValueStep, ValueBytes, Fields, Text;
    ValueStepSkips();
    var g := (_: Value, v: Value) => v;
    forall i | 0 <= i < |lv| && lv[i].Known? ensures StepsOver(ValueStep, ValueBytes, g, lv[i].part) {
      var v := lv[i].part;
      forall rest: Bytes, m: Value ensures ValueStep(ValueBytes(v) + rest, m) == Ok((g(m, v), |ValueBytes(v)|)) {
        ValueStepRoundTrip(v, rest, m);
      }
      assert ValueBytes(v) != [] by { SetValueNonEmpty(v); }
    }
    PiecesDecode(ValueStep, 7, lv, ValueBytes, g, Unset);
  }

  lemma SetValueNonEmpty(v: Value) requires v != Unset ensures ValueBytes(v) != [] { }

  // ---- map entries ----

  /** A map entry: the key, the value if it is sent at all, and unknown fields around them. */
  datatype LaterEntry<+V> =
    LaterEntry(before: seq<Field>, key: Uint32, between: seq<Field>, value: Option<V>, after: seq<Field>)

  function PartText<V>(value: Option<V>, payload: V -> Bytes): Bytes {
    if value.None? then [] else Delimited(0x12, payload(value.value))
  }

  function EntryText<V>(e: LaterEntry<V>, payload: V -> Bytes): Bytes {
    EncodeAll(e.before) + (KeyBytes(e.key) + (EncodeAll(e.between) + (PartText(e.value, payload) + EncodeAll(e.after))))
  }

  predicate EntryOk<V>(e: LaterEntry<V>) {
    AllUnknown(2, e.before) && AllUnknown(2, e.between) && AllUnknown(2, e.after)
  }

  lemma {:induction false} EntrySkips<V>(read: Bytes -> Result<V>, us: seq<Field>, s: Bytes, n: nat, key: Uint32,
      val: V)
    requires AllUnknown(2, us) && |EncodeAll(us)| < TWO_63
    ensures MapEntry(read, EncodeAll(us) + s, |EncodeAll(us)| + n, key, val) == MapEntry(read, s, n, key, val)
    decreases |us|
  {
    hide MapEntry, WellFormed, Encode;
    if us == [] {
      assert EncodeAll(us) + s == s;
    } else {
      var head, tail := Encode(us[0]), EncodeAll(us[1..]);
      assert UnknownTo(2, us[0]);
      assert EncodeAll(us) + s == head + (tail + s);
      UnknownInMapEntry(read, us[0], tail + s, |tail| + n, key, val);
      EntrySkips(read, us[1..], s, n, key, val);
    }
  }

  /** The value part, then unknown fields to the end of the entry. */
  lemma PartReads<V>(read: Bytes -> Result<V>, part: Bytes, payload: Bytes, after: seq<Field>, rest: Bytes, k: Uint32,
      init: V, v: V)
    requires (part == [] && v == init) || (part == Delimited(0x12, payload) && read(payload) == Ok(v))
    requires AllUnknown(2, after) && |part + EncodeAll(after)| < TWO_63 && |payload| < TWO_63
    ensures MapEntry(read, part + EncodeAll(after) + rest, |part + EncodeAll(after)|, k, init) == Ok((k, v))
  {
    hide MapEntry, EncodeAll, Delimited;
    var tail := EncodeAll(after);
    assert part + tail + rest == part + (tail + rest);
    EntrySkips(read, after, rest, 0, k, v);
    EntryOver(read, rest, 0, k, v);
    if part == [] && v == init {
      assert part + (tail + rest) == tail + rest && |part + tail| == |tail| + 0;
    } else {
      ValueReads(read, payload, tail + rest, |tail|, k, init, v);
    }
  }

  lemma EntryReads<V>(read: Bytes -> Result<V>, e: LaterEntry<V>, part: Bytes, payload: Bytes, rest: Bytes,
      init: V, v: V)
    requires EntryOk(e) && |payload| < TWO_63
    requires (part == [] && v == init) || (part == Delimited(0x12, payload) && read(payload) == Ok(v))
    requires var body := EncodeAll(e.before) + (KeyBytes(e.key) + (EncodeAll(e.between) + (part + EncodeAll(e.after))));
      |body| < TWO_63
    ensures var body := EncodeAll(e.before) + (KeyBytes(e.key) + (EncodeAll(e.between) + (part + EncodeAll(e.after))));
      MapEntry(read, body + rest, |body|, 0, init) == Ok((e.key, v))
  {
    hide MapEntry, EncodeAll, KeyBytes;
    var a, b, tail := EncodeAll(e.before), EncodeAll(e.between), part + EncodeAll(e.after);
    var key := KeyBytes(e.key);
    var s := key + (b + (tail + rest));
    assert a + (key + (b + tail)) + rest == a + s;
    EntrySkips(read, e.before, s, |key + (b + tail)|, 0, init);
    KeyReads(read, e.key, b + (tail + rest), |b + tail|, init);
    EntrySkips(read, e.between, tail + rest, |tail|, e.key, init);
    PartReads(read, part, payload, e.after, rest, e.key, init, v);
  }

  // ---- events ----

  type ValueEntry = LaterEntry<LaterValue>
  type LaterEvent = seq<Piece<ValueEntry>>

  function ValueEntryText(e: ValueEntry): Bytes { Delimited(0x0a, EntryText(e, ValueText)) }

  function EntryMeant(e: ValueEntry): Option<Value> {
    match e.value case None => None case Some(lv) => Some(ValueMeant(lv))
  }

  function SetEntry(m: Event, e: ValueEntry): Event { Event(m.value[e.key := EntryMeant(e)]) }

  function EventText(le: LaterEvent): Bytes { Text(le, ValueEntryText) }
  function EventMeant(le: LaterEvent): Event { Meant(le, SetEntry, Event(map[])) }

  predicate ValueEntryOk(e: ValueEntry) { EntryOk(e) && (e.value.Some? ==> ValueOk(e.value.value)) }

  predicate EventOk(le: LaterEvent) {
    StrangersBeyond(1, le) && forall i :: 0 <= i < |le| && le[i].Known? ==> ValueEntryOk(le[i].part)
  }

  lemma DelimitedLonger(tag: Byte, payload: Bytes) ensures |payload| < |Delimited(tag, payload)| { }

  lemma ValueEntrySteps(e: ValueEntry, rest: Bytes, m: Event)
    requires ValueEntryOk(e) && |ValueEntryText(e)| < TWO_63
    ensures EventStep(ValueEntryText(e) + rest, m) == Ok((SetEntry(m, e), |ValueEntryText(e)|))
  {
    hide ReadTag, ReadLength, MapEntry, KeyBytes, EncodeAll, ValueText, EntryOk, ValueOk, ValueMeant;
    var body := EntryText(e, ValueText);
    DelimitedLonger(0x0a, body);
    DelimitedHead(0x0a, body, rest);
    var part := PartText(e.value, ValueText);
    var bare := LaterEntry(e.before, e.key, e.between, Option<Option<Value>>.None, e.after);
    EntryOkSame(e, bare);
    if e.value.None? {
      EntryReads(ReadValue, bare, part, [], rest, None, None);
    } else {
      var payload := ValueText(e.value.value);
      DelimitedLonger(0x12, payload);
      LaterValueDecodes(e.value.value);
      EntryReads(ReadValue, bare, part, payload, rest, None, Some(ValueMeant(e.value.value)));
    }
  }

  lemma EntryOkSame<V, W>(e: LaterEntry<V>, d: LaterEntry<W>)
    requires EntryOk(e) && d.before == e.before && d.between == e.between && d.after == e.after
    ensures EntryOk(d)
  {
  }

  lemma {:induction false} PartShorter<K>(ps: seq<Piece<K>>, f: K -> Bytes, i: nat)
    requires i < |ps| && ps[i].Known?
    ensures |f(ps[i].part)| <= |Text(ps, f)|
  {
    hide Encode;
    if i > 0 { PartShorter(ps[1..], f, i - 1); }
  }

  lemma LaterEventDecodes(le: LaterEvent)
    requires EventOk(le) && |EventText(le)| < TWO_63
    ensures DecodeEvent(EventText(le), Event(map[])) == Ok(EventMeant(le))
  {
    hide EventStep, ValueEntryText, Fields, Text, ValueEntryOk, SetEntry;
    EventStepSkips();
    forall i | 0 <= i < |le| && le[i].Known? ensures StepsOver(EventStep, ValueEntryText, SetEntry, le[i].part) {
      var e := le[i].part;
      PartShorter(le, ValueEntryText, i);
      forall rest: Bytes, m: Event
        ensures EventStep(ValueEntryText(e) + rest, m) == Ok((SetEntry(m, e), |ValueEntryText(e)|))
      {
        ValueEntrySteps(e, rest, m);
      }
      assert ValueEntryText(e) != [] by { ValueEntryNonEmpty(e); }
    }
    PiecesDecode(EventStep, 1, le, ValueEntryText, SetEntry, Event(map[]));
  }

  lemma ValueEntryNonEmpty(e: ValueEntry) ensures ValueEntryText(e) != [] { }

  // ---- batches ----

  datatype BatchPart = Str(entry: LaterEntry<Bytes>) | Ev(event: LaterEvent)
  type LaterBatch = seq<Piece<BatchPart>>

  function Whole(s: Bytes): Bytes { s }

  function BatchPartText(p: BatchPart): Bytes {
    match p
    case Str(e) => Delimited(0x0a, EntryText(e, Whole))
    case Ev(le) => Delimited(0x12, EventText(le))
  }

  function AddPart(m: Batch, p: BatchPart): Batch {
    match p
    case Str(e) => m.(strings := m.strings[e.key := if e.value.None? then [] else e.value.value])
    case Ev(le) => m.(events := m.events + [EventMeant(le)])
  }

  function BatchText(lb: LaterBatch): Bytes { Text(lb, BatchPartText) }
  function BatchMeant(lb: LaterBatch): Batch { Meant(lb, AddPart, Batch(map[], [])) }

  predicate BatchPartOk(p: BatchPart) {
    match p
    case Str(e) => EntryOk(e)
    case Ev(le) => EventOk(le)
  }

  predicate BatchOk(lb: LaterBatch) {
    StrangersBeyond(2, lb) && forall i :: 0 <= i < |lb| && lb[i].Known? ==> BatchPartOk(lb[i].part)
  }

  lemma StringSteps(e: LaterEntry<Bytes>, rest: Bytes, m: Batch)
    requires EntryOk(e) && |BatchPartText(Str(e))| < TWO_63
    ensures BatchStep(BatchPartText(Str(e)) + rest, m) == Ok((AddPart(m, Str(e)), |BatchPartText(Str(e))|))
  {
    hide ReadTag, ReadLength, MapEntry, KeyBytes, EncodeAll, EntryOk, DecodeEvent;
    var body := EntryText(e, Whole);
    DelimitedLonger(0x0a, body);
    DelimitedHead(0x0a, body, rest);
    var part := PartText(e.value, Whole);
    if e.value.None? {
      EntryReads(ReadBytes, e, part, [], rest, [], []);
    } else {
      DelimitedLonger(0x12, e.value.value);
      EntryReads(ReadBytes, e, part, e.value.value, rest, [], e.value.value);
    }
  }

  lemma EventSteps(le: LaterEvent, rest: Bytes, m: Batch)
    requires EventOk(le) && |BatchPartText(Ev(le))| < TWO_63
    ensures BatchStep(BatchPartText(Ev(le)) + rest, m) == Ok((AddPart(m, Ev(le)), |BatchPartText(Ev(le))|))
  {
    hide BatchStep, EventText, EventOk, EventMeant, DecodeEvent;
    DelimitedLonger(0x12, EventText(le));
    LaterEventDecodes(le);
    BatchStepEvent(EventText(le), EventMeant(le), rest, m);
  }

  /** Whatever unknown fields stand between and inside the known ones, at whatever level and in whatever order the parts
      come, a batch decodes to what its known parts say. */
  lemma LaterBatchDecodes(lb: LaterBatch)
    requires BatchOk(lb) && |BatchText(lb)| < TWO_63
    ensures DecodeBatch(BatchText(lb), Batch(map[], [])) == Ok(BatchMeant(lb))
  {
    hide BatchStep, BatchPartText, Fields, Text, BatchPartOk, AddPart;
    BatchStepSkips();
    forall i | 0 <= i < |lb| && lb[i].Known? ensures StepsOver(BatchStep, BatchPartText, AddPart, lb[i].part) {
      PartShorter(lb, BatchPartText, i);
      BatchPartSteps(lb[i].part);
    }
    PiecesDecode(BatchStep, 2, lb, BatchPartText, AddPart, Batch(map[], []));
  }

  lemma BatchPartSteps(p: BatchPart)
    requires BatchPartOk(p) && |BatchPartText(p)| < TWO_63
    ensures StepsOver(BatchStep, BatchPartText, AddPart, p)
  {
    hide BatchStep, BatchPartText, AddPart, EntryOk, EventOk;
    forall rest: Bytes, m: Batch
      ensures BatchStep(BatchPartText(p) + rest, m) == Ok((AddPart(m, p), |BatchPartText(p)|))
    {
      match p
      case Str(e) => StringSteps(e, rest, m);
      case Ev(le) => EventSteps(le, rest, m);
    }
    assert BatchPartText(p) != [] by { BatchPartNonEmpty(p); }
  }

  lemma BatchPartNonEmpty(p: BatchPart) ensures BatchPartText(p) != [] { }

  // ---- the same batch without the unknown fields ----

  function Stripped<K>(ps: seq<Piece<K>>, strip: K -> K): seq<Piece<K>> {
    if ps == [] then []
    else (match ps[0] case Known(x) => [Known(strip(x))] case Unknown(_) => []) + Stripped(ps[1..], strip)
  }

  function BareValueEntry(e: ValueEntry): ValueEntry {
    LaterEntry([], e.key, [], match e.value case None => None case Some(lv) => Some(Stripped(lv, (v: Value) => v)), [])
  }

  function BareEvent(le: LaterEvent): LaterEvent { Stripped(le, BareValueEntry) }

  function BarePart(p: BatchPart): BatchPart {
    match p
    case Str(e) => Str(LaterEntry([], e.key, [], e.value, []))
    case Ev(le) => Ev(BareEvent(le))
  }

  function BareBatch(lb: LaterBatch): LaterBatch { Stripped(lb, BarePart) }

  lemma {:induction false} StrippedMeans<K, M>(ps: seq<Piece<K>>, strip: K -> K, g: (M, K) -> M, acc: M)
    requires forall m: M, x: K :: g(m, strip(x)) == g(m, x)
    ensures Meant(Stripped(ps, strip), g, acc) == Meant(ps, g, acc)
    decreases |ps|
  {
    if ps != [] {
      var tail := Stripped(ps[1..], strip);
      match ps[0]
      case Known(x) =>
        assert Stripped(ps, strip)[1..] == tail;
        StrippedMeans(ps[1..], strip, g, g(acc, x));
      case Unknown(_) =>
        assert Stripped(ps, strip) == tail;
        StrippedMeans(ps[1..], strip, g, acc);
    }
  }

  lemma BareBatchMeans(lb: LaterBatch)
    ensures BatchMeant(BareBatch(lb)) == BatchMeant(lb)
  {
    forall m: Batch, p: BatchPart ensures AddPart(m, BarePart(p)) == AddPart(m, p) {
      if p.Ev? { BareEventMeans(p.event); }
    }
    StrippedMeans(lb, BarePart, AddPart, Batch(map[], []));
  }

  lemma BareEventMeans(le: LaterEvent)
    ensures EventMeant(BareEvent(le)) == EventMeant(le)
  {
    forall m: Event, e: ValueEntry ensures SetEntry(m, BareValueEntry(e)) == SetEntry(m, e) {
      if e.value.Some? { StrippedMeans(e.value.value, (v: Value) => v, (_: Value, v: Value) => v, Unset); }
    }
    StrippedMeans(le, BareValueEntry, SetEntry, Event(map[]));
  }

  lemma {:induction false} VarintMonotone(a: nat, b: nat)
    requires a <= b
    ensures |Varint(a)| <= |Varint(b)|
  {
    if a >= 128 { VarintMonotone(a / 128, b / 128); }
  }

  lemma DelimitedMonotone(tag: Byte, a: Bytes, b: Bytes)
    requires |a| <= |b|
    ensures |Delimited(tag, a)| <= |Delimited(tag, b)|
  {
    hide Varint;
    VarintMonotone(|a|, |b|);
  }

  /** Taking unknown fields out keeps a message well formed and does not lengthen it. */
  lemma {:induction false} StrippedShorter<K(!new)>(ps: seq<Piece<K>>, strip: K -> K, f: K -> Bytes, ok: K -> bool,
      known: nat)
    requires forall x: K :: ok(x) ==> ok(strip(x)) && |f(strip(x))| <= |f(x)|
    requires forall i :: 0 <= i < |ps| && ps[i].Known? ==> ok(ps[i].part)
    ensures var bare := Stripped(ps, strip);
      && |Text(bare, f)| <= |Text(ps, f)| && StrangersBeyond(known, bare)
      && forall i :: 0 <= i < |bare| && bare[i].Known? ==> ok(bare[i].part)
    decreases |ps|
  {
    hide Encode, WellFormed;
    if ps != [] {
      StrippedShorter(ps[1..], strip, f, ok, known);
      var tail := Stripped(ps[1..], strip);
      if ps[0].Known? {
        assert Stripped(ps, strip)[1..] == tail;
      } else {
        assert Stripped(ps, strip) == tail;
      }
    }
  }

  predicate IsSet(v: Value) { v != Unset }

  lemma BareValueEntryOk(e: ValueEntry)
    requires ValueEntryOk(e)
    ensures ValueEntryOk(BareValueEntry(e)) && |ValueEntryText(BareValueEntry(e))| <= |ValueEntryText(e)|
  {
    hide Text, Varint, Delimited, WellFormed, EncodeAll, Stripped;
    var d := BareValueEntry(e);
    assert EncodeAll([]) == [] by { EncodeNone(); }
    if e.value.Some? {
      StrippedShorter(e.value.value, (v: Value) => v, ValueBytes, IsSet, 7);
      DelimitedMonotone(0x12, ValueText(d.value.value), ValueText(e.value.value));
    }
    assert |EntryText(d, ValueText)| <= |EntryText(e, ValueText)|;
    DelimitedMonotone(0x0a, EntryText(d, ValueText), EntryText(e, ValueText));
  }

  lemma EncodeNone() ensures EncodeAll([]) == [] { }

  lemma BareEventOk(le: LaterEvent)
    requires EventOk(le)
    ensures EventOk(BareEvent(le)) && |EventText(BareEvent(le))| <= |EventText(le)|
  {
    hide ValueEntryOk, ValueEntryText, BareValueEntry, Text, Stripped, WellFormed;
    forall e: ValueEntry | ValueEntryOk(e)
      ensures ValueEntryOk(BareValueEntry(e)) && |ValueEntryText(BareValueEntry(e))| <= |ValueEntryText(e)|
    {
      BareValueEntryOk(e);
    }
    StrippedShorter(le, BareValueEntry, ValueEntryText, ValueEntryOk, 1);
  }

  lemma BarePartOk(p: BatchPart)
    requires BatchPartOk(p)
    ensures BatchPartOk(BarePart(p)) && |BatchPartText(BarePart(p))| <= |BatchPartText(p)|
  {
    hide EventOk, EventText, BareEvent, Delimited, EncodeAll, WellFormed;
    assert EncodeAll([]) == [] by { EncodeNone(); }
    match p
    case Str(e) =>
      var d := LaterEntry([], e.key, [], e.value, []);
      assert |EntryText(d, Whole)| <= |EntryText(e, Whole)|;
      DelimitedMonotone(0x0a, EntryText(d, Whole), EntryText(e, Whole));
    case Ev(le) =>
      BareEventOk(le);
      DelimitedMonotone(0x12, EventText(BareEvent(le)), EventText(le));
  }

  lemma BareBatchOk(lb: LaterBatch)
    requires BatchOk(lb)
    ensures BatchOk(BareBatch(lb)) && |BatchText(BareBatch(lb))| <= |BatchText(lb)|
  {
    hide BatchPartOk, BatchPartText, BarePart, Text, Stripped, WellFormed;
    forall p: BatchPart | BatchPartOk(p)
      ensures BatchPartOk(BarePart(p)) && |BatchPartText(BarePart(p))| <= |BatchPartText(p)|
    {
      BarePartOk(p);
    }
    StrippedShorter(lb, BarePart, BatchPartText, BatchPartOk, 2);
  }

  /** Unknown fields are transparent: with all of them taken out, at every level, the batch decodes to the same. */
  lemma UnknownFieldsAreTransparent(lb: LaterBatch)
    requires BatchOk(lb) && |BatchText(lb)| < TWO_63
    ensures DecodeBatch(BatchText(lb), Batch(map[], [])) == DecodeBatch(BatchText(BareBatch(lb)), Batch(map[], []))
  {
    hide BatchOk, BatchText, BatchMeant, DecodeBatch, BareBatch;
    BareBatchOk(lb);
    LaterBatchDecodes(lb);
    LaterBatchDecodes(BareBatch(lb));
    BareBatchMeans(lb);
  }

  // ---- what this version's encoder writes is of that form ----

  function PlainValue(v: Value): LaterValue { if v == Unset then [] else [Known(v)] }

  function PlainEntry(k: Uint32, v: Option<Value>): ValueEntry {
    LaterEntry([], k, [], match v case None => None case Some(x) => Some(PlainValue(x)), [])
  }

  lemma PlainValueText(v: Value)
    ensures ValueText(PlainValue(v)) == ValueBytes(v)
  {
    if v != Unset {
      var lv: LaterValue := [Known(v)];
      assert lv[1..] == [];
      assert Text(lv, ValueBytes) == ValueBytes(v) + [];
    }
  }

  lemma PlainEntryText(k: Uint32, v: Option<Value>)
    ensures ValueEntryText(PlainEntry(k, v)) == ValueEntryBytes(k, v) && ValueEntryOk(PlainEntry(k, v))
  {
    hide Delimited, KeyBytes, EncodeAll, WellFormed;
    assert EncodeAll([]) == [] by { EncodeNone(); }
    if v.Some? { PlainValueText(v.value); }
    assert EntryText(PlainEntry(k, v), ValueText) == KeyBytes(k) + ValuePart(v);
  }

  function PlainEvent(order: seq<Uint32>, m: map<Uint32, Option<Value>>): LaterEvent
    requires forall k :: k in order ==> k in m
  {
    if order == [] then [] else [Known(PlainEntry(order[0], m[order[0]]))] + PlainEvent(order[1..], m)
  }

  lemma {:induction false} PlainEventText(order: seq<Uint32>, m: map<Uint32, Option<Value>>)
    requires forall k :: k in order ==> k in m
    ensures EventText(PlainEvent(order, m)) == Concat(order, Marshal.ValueEntryOf(m)) && EventOk(PlainEvent(order, m))
  {
    hide ValueEntryText, ValueEntryOk, PlainEntry, WellFormed;
    if order != [] {
      PlainEntryText(order[0], m[order[0]]);
      PlainEventText(order[1..], m);
      assert PlainEvent(order, m)[1..] == PlainEvent(order[1..], m);
    }
  }

  function PlainString(k: Uint32, v: Bytes): BatchPart {
    Str(LaterEntry([], k, [], if v == [] then None else Some(v), []))
  }

  lemma PlainStringText(k: Uint32, v: Bytes)
    ensures BatchPartText(PlainString(k, v)) == StringEntryBytes(k, v) && BatchPartOk(PlainString(k, v))
  {
    hide Delimited, KeyBytes, EncodeAll, WellFormed;
    assert EncodeAll([]) == [] by { EncodeNone(); }
    assert EntryText(PlainString(k, v).entry, Whole) == KeyBytes(k) + StringPart(v);
  }

  function PlainStrings(order: seq<Uint32>, m: map<Uint32, Bytes>): LaterBatch
    requires forall k :: k in order ==> k in m
  {
    if order == [] then [] else [Known(PlainString(order[0], m[order[0]]))] + PlainStrings(order[1..], m)
  }

  lemma {:induction false} PlainStringsText(order: seq<Uint32>, m: map<Uint32, Bytes>)
    requires forall k :: k in order ==> k in m
    ensures BatchText(PlainStrings(order, m)) == Concat(order, Marshal.StringEntryOf(m))
    ensures BatchOk(PlainStrings(order, m))
  {
    hide BatchPartText, BatchPartOk, PlainString, WellFormed;
    if order != [] {
      PlainStringText(order[0], m[order[0]]);
      PlainStringsText(order[1..], m);
      assert PlainStrings(order, m)[1..] == PlainStrings(order[1..], m);
    }
  }

  lemma PlainOneEvent(e: Event, s: Bytes) returns (le: LaterEvent)
    requires Marshal.EventWire(e, s)
    ensures EventOk(le) && EventText(le) == s
  {
    hide EventText, EventOk, Concat, Enumerates;
    var order :| Enumerates(order, e.value.Keys) && s == Concat(order, Marshal.ValueEntryOf(e.value));
    EnumeratesMembers(order, e.value.Keys);
    PlainEventText(order, e.value);
    le := PlainEvent(order, e.value);
  }

  lemma {:induction false} PlainEvents(events: seq<Event>, parts: seq<Bytes>) returns (lb: LaterBatch)
    requires Marshal.EventsWire(events, parts)
    ensures BatchOk(lb) && BatchText(lb) == Concat(parts, Marshal.EventField)
    decreases |events|
  {
    hide Marshal.EventWire, BatchPartText, BatchPartOk, EventText, EventOk, WellFormed, Marshal.EventField;
    if events == [] {
      lb := [];
    } else {
      var le := PlainOneEvent(events[0], parts[0]);
      var rest := PlainEvents(events[1..], parts[1..]);
      lb := [Known(Ev(le))] + rest;
      assert lb[1..] == rest;
      EventPartText(le);
    }
  }

  lemma EventPartText(le: LaterEvent)
    requires EventOk(le)
    ensures BatchPartText(Ev(le)) == Marshal.EventField(EventText(le)) && BatchPartOk(Ev(le))
  {
  }

  lemma {:induction false} TextConcat<K>(a: seq<Piece<K>>, b: seq<Piece<K>>, f: K -> Bytes)
    ensures Text(a + b, f) == Text(a, f) + Text(b, f)
  {
    hide Encode;
    if a == [] {
      assert a + b == b;
    } else {
      assert (a + b)[1..] == a[1..] + b;
      TextConcat(a[1..], b, f);
    }
  }

  lemma PlainStringsOf(m: map<Uint32, Bytes>, s: Bytes) returns (lb: LaterBatch)
    requires Marshal.StringsWire(m, s)
    ensures BatchOk(lb) && BatchText(lb) == s
  {
    hide BatchOk, BatchText, Concat, Enumerates;
    var order :| Enumerates(order, m.Keys) && s == Concat(order, Marshal.StringEntryOf(m));
    EnumeratesMembers(order, m.Keys);
    PlainStringsText(order, m);
    lb := PlainStrings(order, m);
  }

  lemma PlainEventsOf(events: seq<Event>, s: Bytes) returns (lb: LaterBatch)
    requires Marshal.EventFieldsWire(events, s)
    ensures BatchOk(lb) && BatchText(lb) == s
  {
    hide BatchOk, BatchText, Concat, Marshal.EventsWire;
    var parts :| Marshal.EventsWire(events, parts) && s == Concat(parts, Marshal.EventField);
    lb := PlainEvents(events, parts);
  }

  lemma JoinedOk(a: LaterBatch, b: LaterBatch)
    requires BatchOk(a) && BatchOk(b)
    ensures BatchOk(a + b) && BatchText(a + b) == BatchText(a) + BatchText(b)
  {
    hide BatchPartText, BatchPartOk, UnknownTo, Text;
    TextConcat(a, b, BatchPartText);
  }

  /** Every encoding of a batch is such a run of pieces, none of them unknown, and it means the batch. */
  lemma WireIsPieces(b: Batch, s: Bytes) returns (lb: LaterBatch)
    requires Marshal.BatchWire(b, s) && |s| < TWO_63
    ensures BatchOk(lb) && BatchText(lb) == s && BatchMeant(lb) == b
  {
    hide BatchMeant, DecodeBatch, BatchOk, BatchText, Marshal.StringsWire, Marshal.EventFieldsWire;
    var n :| 0 <= n <= |s| && Marshal.StringsWire(b.strings, s[..n]) && Marshal.EventFieldsWire(b.events, s[n..]);
    var strings := PlainStringsOf(b.strings, s[..n]);
    var events := PlainEventsOf(b.events, s[n..]);
    lb := strings + events;
    JoinedOk(strings, events);
    assert s[..n] + s[n..] == s;
    LaterBatchDecodes(lb);
    Marshal.BatchRoundTrip(b, s);
  }
}

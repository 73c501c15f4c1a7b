/** String interning by the client's encoder (client/golang/encoding.go) and its undoing by the server
    (from_batch.go). */
module Interning {
  import opened ByteStrings
  import opened Varints
  import opened Messages
  import Marshal

  /** The dynamic types encodeValue tells apart. */
  datatype GoValue =
    | Narrow(i32: Int32)              // int8, int16, int32
    | Wide(i64: Int64)                // uint8, uint16, uint32, int, int64
    | Float(bits: Uint64)             // float32, float64
    | Text(text: Bytes)
    | Bool(flag: bool)
    | Time(seconds: Int64)            // val.Unix()
    | RawJson(json: Bytes)
    | Object(marshalled: Option<Bytes>)   // json.Marshal of a map; None when it fails
    | Nil
    | Other(printed: Bytes)           // fmt.Sprintf("%v", v)

  type GoEvent = map<Bytes, GoValue>

  /** What the server makes of a value. */
  datatype ServerValue =
    | SeenInt32(i32: Int32) | SeenInt64(i64: Int64) | SeenFloat(bits: Uint64) | SeenText(text: Bytes)
    | SeenBool(flag: bool) | SeenTime(seconds: Int64) | SeenJson(json: Bytes) | SeenNil

  function Meant(v: GoValue): ServerValue {
    match v
    case Narrow(x) => SeenInt32(x)
    case Wide(x) => SeenInt64(x)
    case Float(b) => SeenFloat(b)
    case Text(t) => SeenText(t)
    case Bool(b) => SeenBool(b)
    case Time(s) => SeenTime(s)
    case RawJson(j) => SeenJson(j)
    case Object(m) => SeenJson(if m.Some? then m.value else [])
    case Nil => SeenNil
    case Other(t) => SeenText(t)
  }

  /** Every kind of value keeps its kind and its content; a map is seen as its JSON, anything else as its text. */
  lemma MeantIs(v: GoValue)
    ensures v.Narrow? ==> Meant(v) == SeenInt32(v.i32)
    ensures v.Wide? ==> Meant(v) == SeenInt64(v.i64)
    ensures v.Float? ==> Meant(v) == SeenFloat(v.bits)
    ensures v.Text? ==> Meant(v) == SeenText(v.text)
    ensures v.Bool? ==> Meant(v) == SeenBool(v.flag)
    ensures v.Time? ==> Meant(v) == SeenTime(v.seconds)
    ensures v.RawJson? ==> Meant(v) == SeenJson(v.json)
    ensures v.Object? && v.marshalled.Some? ==> Meant(v) == SeenJson(v.marshalled.value)
    ensures v.Nil? ==> Meant(v) == SeenNil
    ensures v.Other? ==> Meant(v) == SeenText(v.printed)
  {
  }

  /** The event as the server is to see it: a map that does not marshal is left out. */
  function MeantEvent(ev: GoEvent): map<Bytes, ServerValue> {
    map k | k in ev && ev[k] != Object(None) :: Meant(ev[k])
  }

  lemma MeantEventIs(ev: GoEvent)
    ensures forall k :: k in MeantEvent(ev) <==> k in ev && ev[k] != Object(None)
    ensures forall k :: k in MeantEvent(ev) ==> MeantEvent(ev)[k] == Meant(ev[k])
  {
  }

  // ---- the dictionary ----

  type Refs = map<Bytes, Uint32>

  ghost predicate Numbered(refs: Refs, next: Uint32) { forall s :: s in refs ==> 1 <= refs[s] <= next }

  ghost predicate Injective(refs: Refs) {
    forall s, t :: s in refs && t in refs && refs[s] == refs[t] ==> s == t
  }

  ghost predicate Used(refs: Refs, r: int) { exists s :: s in refs && refs[s] == r }

  ghost predicate Onto(refs: Refs, next: Uint32) { forall r :: 1 <= r <= next ==> Used(refs, r) }

  /** One number per string, and every number up to `next` is used. */
  ghost predicate Dictionary(refs: Refs, next: Uint32) {
    |refs| == next && Numbered(refs, next) && Injective(refs) && Onto(refs, next)
  }

  ghost predicate Extends(refs: Refs, refs': Refs) { forall s :: s in refs ==> s in refs' && refs'[s] == refs[s] }

  /** The string a value interns, if any. */
  function TextOf(v: GoValue): Option<Bytes> {
    match v
    case Text(t) => Some(t)
    case RawJson(j) => Some(j)
    case Object(m) => m
    case Other(t) => Some(t)
    case _ => None
  }

  /** A value under a dictionary that has its string. */
  function Encoded(refs: Refs, v: GoValue): Option<Value>
    requires TextOf(v).Some? ==> TextOf(v).value in refs
  {
    match v
    case Narrow(x) => Some(Int32Value(x))
    case Wide(x) => Some(Int64Value(x))
    case Float(b) => Some(Float64Value(b))
    case Text(t) => Some(StringValue(refs[t]))
    case Bool(b) => Some(BoolValue(b))
    case Time(s) => Some(TimeValue(s))
    case RawJson(j) => Some(JsonValue(refs[j]))
    case Object(m) => if m.Some? then Some(JsonValue(refs[m.value])) else None
    case Nil => None
    case Other(t) => Some(StringValue(refs[t]))
  }

  ghost predicate Covered(refs: Refs, ev: GoEvent) {
    forall k :: k in ev ==> k in refs && (TextOf(ev[k]).Some? ==> TextOf(ev[k]).value in refs)
  }

  /** The encoded event has, under each key's number, that key's encoded value, and nothing else. */
  ghost predicate EncodedEvent(refs: Refs, ev: GoEvent, e: Event) {
    && Covered(refs, ev)
    && (forall k :: k in ev && ev[k] != Object(None) ==> refs[k] in e.value && e.value[refs[k]] == Encoded(refs, ev[k]))
    && (forall r :: r in e.value ==> exists k :: k in ev && ev[k] != Object(None) && refs[k] == r)
  }

  /** The strings map is the exact inverse of the dictionary. */
  ghost predicate Inverse(strings: map<Uint32, Bytes>, refs: Refs) {
    && (forall s :: s in refs ==> refs[s] in strings && strings[refs[s]] == s)
    && (forall r :: r in strings ==> strings[r] in refs && refs[strings[r]] == r)
  }

  ghost predicate Interned(events: seq<GoEvent>, b: Batch, refs: Refs, next: Uint32) {
    && Dictionary(refs, next) && Inverse(b.strings, refs)
    && |b.events| == |events| && forall i :: 0 <= i < |events| ==> EncodedEvent(refs, events[i], b.events[i])
  }

  // ---- the server's side ----

  function StringAt(strings: map<Uint32, Bytes>, r: Uint32): Bytes { if r in strings then strings[r] else [] }

  /** readValue; binaryAt is stringAt on bytes. */
  function ReadValueOf(strings: map<Uint32, Bytes>, v: Option<Value>): ServerValue {
    match v
    case None => SeenNil
    case Some(x) =>
      match x
      case Unset => SeenNil
      case Int32Value(i) => SeenInt32(i)
      case Int64Value(i) => SeenInt64(i)
      case Float64Value(b) => SeenFloat(b)
      case StringValue(r) => SeenText(StringAt(strings, r))
      case BoolValue(b) => SeenBool(b)
      case TimeValue(s) => SeenTime(s)
      case JsonValue(r) => SeenJson(StringAt(strings, r))
  }

  /** What the server makes of each case of the oneof; a reference it does not know is the empty string. */
  lemma ReadValueIs(strings: map<Uint32, Bytes>, x: Value)
    ensures ReadValueOf(strings, None) == SeenNil
    ensures x.Unset? ==> ReadValueOf(strings, Some(x)) == SeenNil
    ensures x.Int32Value? ==> ReadValueOf(strings, Some(x)) == SeenInt32(x.i32)
    ensures x.Int64Value? ==> ReadValueOf(strings, Some(x)) == SeenInt64(x.i64)
    ensures x.Float64Value? ==> ReadValueOf(strings, Some(x)) == SeenFloat(x.bits)
    ensures x.BoolValue? ==> ReadValueOf(strings, Some(x)) == SeenBool(x.flag)
    ensures x.TimeValue? ==> ReadValueOf(strings, Some(x)) == SeenTime(x.time)
    ensures x.StringValue? ==>
      ReadValueOf(strings, Some(x)) == SeenText(if x.str in strings then strings[x.str] else [])
    ensures x.JsonValue? ==>
      ReadValueOf(strings, Some(x)) == SeenJson(if x.json in strings then strings[x.json] else [])
  {
  }

  /** readPartition: the partition's text, or None when it is missing or not a string. */
  function ReadPartition(e: Event, strings: map<Uint32, Bytes>, key: Uint32): Option<Bytes> {
    if key !in e.value then None
    else
      var v := ReadValueOf(strings, e.value[key]);
      if v.SeenText? then Some(v.text) else None
  }

  /** The rows' values as FromBatchBy sets them: under the name of each key. */
  ghost predicate ResolvesTo(strings: map<Uint32, Bytes>, e: Event, m: map<Bytes, ServerValue>) {
    && (forall r :: r in e.value ==>
         StringAt(strings, r) in m && m[StringAt(strings, r)] == ReadValueOf(strings, e.value[r]))
    && (forall s :: s in m ==> exists r :: r in e.value && StringAt(strings, r) == s)
    && (forall r, q :: r in e.value && q in e.value && StringAt(strings, r) == StringAt(strings, q) ==> r == q)
  }

  lemma ValueResolves(refs: Refs, strings: map<Uint32, Bytes>, v: GoValue)
    requires Inverse(strings, refs) && v != Object(None) && (TextOf(v).Some? ==> TextOf(v).value in refs)
    ensures ReadValueOf(strings, Encoded(refs, v)) == Meant(v)
  {
  }

  /** Interning is undone by the server: resolving every reference gives back each event, name by name. */
  lemma InterningUndone(events: seq<GoEvent>, b: Batch, refs: Refs, next: Uint32, i: nat)
    requires Interned(events, b, refs, next) && i < |events|
    ensures ResolvesTo(b.strings, b.events[i], MeantEvent(events[i]))
  {
    hide Dictionary, Encoded, Meant, ReadValueOf;
    var ev, e, m := events[i], b.events[i], MeantEvent(events[i]);
    assert EncodedEvent(refs, ev, e);
    forall r | r in e.value
      ensures StringAt(b.strings, r) in m && m[StringAt(b.strings, r)] == ReadValueOf(b.strings, e.value[r])
    {
      var k :| k in ev && ev[k] != Object(None) && refs[k] == r;
      ValueResolves(refs, b.strings, ev[k]);
    }
    forall s | s in m ensures exists r :: r in e.value && StringAt(b.strings, r) == s {
      assert refs[s] in e.value && StringAt(b.strings, refs[s]) == s;
    }
    forall r, q | r in e.value && q in e.value && StringAt(b.strings, r) == StringAt(b.strings, q) ensures r == q {
      var k :| k in ev && ev[k] != Object(None) && refs[k] == r;
      var l :| l in ev && ev[l] != Object(None) && refs[l] == q;
    }
  }

  /** findParitionKey, in any map order. */
  method FindPartitionKey(strings: map<Uint32, Bytes>, partitionBy: Bytes) returns (r: Option<Uint32>)
    ensures r.Some? ==> r.value in strings && strings[r.value] == partitionBy
    ensures r.None? ==> forall k :: k in strings ==> strings[k] != partitionBy
  {
    var rest := strings.Keys;
    while rest != {}
      invariant rest <= strings.Keys && forall k :: k in strings.Keys - rest ==> strings[k] != partitionBy
      decreases |rest|
    {
      var k :| k in rest;
      if strings[k] == partitionBy { return Some(k); }
      rest := rest - {k};
    }
    return None;
  }

  /** The partition key does not depend on the map order, and reads each event's own partition. */
  lemma PartitionIsUnique(events: seq<GoEvent>, b: Batch, refs: Refs, next: Uint32, partitionBy: Bytes,
      key: Uint32, i: nat)
    requires Interned(events, b, refs, next) && i < |events|
    requires key in b.strings && b.strings[key] == partitionBy
    ensures partitionBy in refs && key == refs[partitionBy]
    ensures ReadPartition(b.events[i], b.strings, key)
         == if partitionBy in MeantEvent(events[i]) && MeantEvent(events[i])[partitionBy].SeenText?
            then Some(MeantEvent(events[i])[partitionBy].text) else None
  {
    hide Dictionary, Encoded, Meant, ReadValueOf;
    assert EncodedEvent(refs, events[i], b.events[i]);
    InterningUndone(events, b, refs, next, i);
    if partitionBy in MeantEvent(events[i]) {
      ValueResolves(refs, b.strings, events[i][partitionBy]);
    }
  }

  /** From the client's events to the server's rows, through the wire. */
  lemma EndToEnd(events: seq<GoEvent>, b: Batch, refs: Refs, next: Uint32, s: Bytes, i: nat)
    requires Interned(events, b, refs, next) && Marshal.BatchWire(b, s) && |s| < TWO_63 && i < |events|
    ensures DecodeBatch(s, Batch(map[], [])) == Ok(b)
    ensures ResolvesTo(b.strings, b.events[i], MeantEvent(events[i]))
  {
    hide Interned, ResolvesTo, DecodeBatch, Marshal.BatchWire;
    Marshal.BatchRoundTrip(b, s);
    InterningUndone(events, b, refs, next, i);
  }

  // ---- the encoder ----

  ghost function StringsIn(events: seq<GoEvent>): set<Bytes> {
    (set i, k | 0 <= i < |events| && k in events[i] :: k)
    + (set i, k | 0 <= i < |events| && k in events[i] && TextOf(events[i][k]).Some? :: TextOf(events[i][k]).value)
  }

  class Encoder {
    var next: Uint32
    var dictionary: Refs
    var batch: Batch

    constructor ()
      ensures next == 0 && dictionary == map[]
    {
      next, dictionary, batch := 0, map[], Batch(map[], []);
    }

    /** updateDict */
    method UpdateDict(str: Bytes) returns (r: Uint32)
      requires Dictionary(dictionary, next) && (str in dictionary || next + 1 < TWO_32)
      modifies this`next, this`dictionary
      ensures Dictionary(dictionary, next) && Extends(old(dictionary), dictionary)
      ensures str in dictionary && dictionary[str] == r
      ensures dictionary.Keys == old(dictionary).Keys + {str}
    {
      hide Dictionary;
      if str in dictionary { return dictionary[str]; }
      DictionaryGrows(dictionary, next, str);
      next := (next + 1) % TWO_32;
      dictionary := dictionary[str := next];
      return next;
    }

    /** encodeValue; None is an error. */
    method EncodeValue(v: GoValue) returns (r: Option<Option<Value>>)
      requires Dictionary(dictionary, next) && (TextOf(v).Some? ==> TextOf(v).value in dictionary || next + 1 < TWO_32)
      modifies this`next, this`dictionary
      ensures Dictionary(dictionary, next) && Extends(old(dictionary), dictionary)
      ensures dictionary.Keys == old(dictionary).Keys + (if TextOf(v).Some? then {TextOf(v).value} else {})
      ensures r == if v == Object(None) then None else Some(Encoded(dictionary, v))
    {
      hide Dictionary;
      match v {
        case Narrow(x) => r := Some(Some(Int32Value(x)));
        case Wide(x) => r := Some(Some(Int64Value(x)));
        case Float(b) => r := Some(Some(Float64Value(b)));
        case Text(t) =>
          var ref := UpdateDict(t);
          r := Some(Some(StringValue(ref)));
        case Bool(b) => r := Some(Some(BoolValue(b)));
        case Time(s) => r := Some(Some(TimeValue(s)));
        case RawJson(j) =>
          var ref := UpdateDict(j);
          r := Some(Some(JsonValue(ref)));
        case Object(m) =>
          if m.None? { return None; }
          var ref := UpdateDict(m.value);
          r := Some(Some(JsonValue(ref)));
        case Nil => r := Some(None);
        case Other(t) =>
          var ref := UpdateDict(t);
          r := Some(Some(StringValue(ref)));
      }
    }

    /** One turn of encodeEvent's loop; `done` is what the event holds so far. */
    method EncodeEntry(e: Event, ghost done: GoEvent, k: Bytes, v: GoValue, ghost all: set<Bytes>) returns (e': Event)
      requires Dictionary(dictionary, next) && dictionary.Keys <= all && |all| < TWO_32
      requires k in all && (TextOf(v).Some? ==> TextOf(v).value in all)
      requires EncodedEvent(dictionary, done, e) && k !in done
      modifies this`next, this`dictionary
      ensures Dictionary(dictionary, next) && Extends(old(dictionary), dictionary) && dictionary.Keys <= all
      ensures EncodedEvent(dictionary, done[k := v], e')
    {
      hide Dictionary, Encoded, EncodedEvent;
      ghost var before := dictionary;
      RoomFor(dictionary, next, all, k);
      var ref := UpdateDict(k);
      if TextOf(v).Some? { RoomFor(dictionary, next, all, TextOf(v).value); }
      var val := EncodeValue(v);
      ExtendEncoded(before, dictionary, done, e);
      OneMoreEncoded(dictionary, next, done, e, k, v);
      e' := if val.Some? then Event(e.value[ref := val.value]) else e;
    }

    /** encodeEvent, in any map order. */
    method EncodeEvent(ev: GoEvent, ghost all: set<Bytes>) returns (e: Event)
      requires Dictionary(dictionary, next) && dictionary.Keys <= all && |all| < TWO_32
      requires forall k :: k in ev ==> k in all && (TextOf(ev[k]).Some? ==> TextOf(ev[k]).value in all)
      modifies this`next, this`dictionary
      ensures Dictionary(dictionary, next) && Extends(old(dictionary), dictionary) && dictionary.Keys <= all
      ensures EncodedEvent(dictionary, ev, e)
    {
      hide Dictionary, EncodedEvent, TextOf;
      e := Event(map[]);
      var rest := ev.Keys;
      ghost var done: GoEvent := map[];
      assert EncodedEvent(dictionary, done, e) by { NothingEncoded(dictionary); }
      while rest != {}
        invariant rest <= ev.Keys && done.Keys == ev.Keys - rest && forall k :: k in done ==> done[k] == ev[k]
        invariant Dictionary(dictionary, next) && Extends(old(dictionary), dictionary) && dictionary.Keys <= all
        invariant EncodedEvent(dictionary, done, e)
        decreases |rest|
      {
        var k :| k in rest;
        e := EncodeEntry(e, done, k, ev[k], all);
        done := done[k := ev[k]];
        rest := rest - {k};
      }
      assert done == ev;
    }

    /** writeDictionary */
    method WriteDictionary() returns (strings: map<Uint32, Bytes>)
      requires Dictionary(dictionary, next)
      ensures Inverse(strings, dictionary)
    {
      strings := map[];
      var rest := dictionary.Keys;
      while rest != {}
        invariant rest <= dictionary.Keys
        invariant forall s :: s in dictionary.Keys - rest ==> dictionary[s] in strings && strings[dictionary[s]] == s
        invariant forall r :: r in strings ==> strings[r] in dictionary.Keys - rest && dictionary[strings[r]] == r
        decreases |rest|
      {
        var str :| str in rest;
        strings := strings[dictionary[str] := str];
        rest := rest - {str};
      }
    }

    /** Encode */
    method Encode(events: seq<GoEvent>) returns (b: Batch)
      requires |StringsIn(events)| < TWO_32
      modifies this
      ensures Interned(events, b, dictionary, next) && b == batch
      ensures forall i, k :: 0 <= i < |events| && k in events[i] && events[i][k] != Object(None) ==>
        k in dictionary && dictionary[k] in b.events[i].value
      ensures forall i :: 0 <= i < |events| ==>
        |b.events[i].value| == |set k | k in events[i] && events[i][k] != Object(None)|
    {
      hide Dictionary, EncodedEvent, Inverse;
      next, dictionary := 0, map[];
      assert Dictionary(dictionary, next) by { EmptyDictionary(); }
      var encoded: seq<Event> := [];
      for i := 0 to |events|
        invariant Dictionary(dictionary, next) && dictionary.Keys <= StringsIn(events)
        invariant |encoded| == i && forall j :: 0 <= j < i ==> EncodedEvent(dictionary, events[j], encoded[j])
      {
        ghost var before := dictionary;
        StringsOfOne(events, i);
        var e := EncodeEvent(events[i], StringsIn(events));
        forall j | 0 <= j < i ensures EncodedEvent(dictionary, events[j], encoded[j]) {
          ExtendEncoded(before, dictionary, events[j], encoded[j]);
        }
        encoded := encoded + [e];
      }
      var strings := WriteDictionary();
      batch := Batch(strings, encoded);
      b := batch;
      forall i | 0 <= i < |events|
        ensures forall k :: k in events[i] && events[i][k] != Object(None) ==>
          k in dictionary && dictionary[k] in b.events[i].value
        ensures |b.events[i].value| == |set k | k in events[i] && events[i][k] != Object(None)|
      {
        EntriesKept(dictionary, next, events[i], b.events[i]);
      }
    }
  }

  /** As many entries as there are values other than a map that does not marshal, each under its key's number. */
  lemma EntriesKept(refs: Refs, next: Uint32, ev: GoEvent, e: Event)
    requires Dictionary(refs, next) && EncodedEvent(refs, ev, e)
    ensures forall k :: k in ev && ev[k] != Object(None) ==> k in refs && refs[k] in e.value
    ensures |e.value| == |set k | k in ev && ev[k] != Object(None)|
  {
    hide Encoded, Onto, Numbered, TextOf;
    var kept := set k | k in ev && ev[k] != Object(None);
    ImageSize(refs, kept);
    assert e.value.Keys == set k | k in kept :: refs[k];
    assert |e.value| == |e.value.Keys|;
  }

  lemma {:induction false} ImageSize(refs: Refs, ks: set<Bytes>)
    requires Injective(refs) && forall k :: k in ks ==> k in refs
    ensures |set k | k in ks :: refs[k]| == |ks|
  {
    if ks == {} {
      assert (set k | k in ks :: refs[k]) == {};
    } else {
      var x :| x in ks;
      ImageSize(refs, ks - {x});
      assert (set k | k in ks :: refs[k]) == (set k | k in ks - {x} :: refs[k]) + {refs[x]};
      assert refs[x] !in set k | k in ks - {x} :: refs[k];
    }
  }

  lemma EmptyDictionary() ensures Dictionary(map[], 0) { }

  lemma StringsOfOne(events: seq<GoEvent>, i: nat)
    requires i < |events|
    ensures var ev := events[i];
      forall k :: k in ev ==>
        k in StringsIn(events) && (TextOf(ev[k]).Some? ==> TextOf(ev[k]).value in StringsIn(events))
  {
  }

  lemma NothingEncoded(refs: Refs) ensures EncodedEvent(refs, map[], Event(map[])) { }

  /** A dictionary within fewer than 2^32 strings has room for each of them. */
  lemma RoomFor(refs: Refs, next: Uint32, all: set<Bytes>, s: Bytes)
    requires Dictionary(refs, next) && refs.Keys <= all && |all| < TWO_32 && s in all
    ensures s in refs || next + 1 < TWO_32
  {
    if s !in refs {
      assert refs.Keys + {s} <= all;
      SubsetSize(refs.Keys + {s}, all);
      assert |refs.Keys + {s}| == |refs.Keys| + 1;
    }
  }

  lemma {:induction false} SubsetSize(a: set<Bytes>, b: set<Bytes>)
    requires a <= b
    ensures |a| <= |b|
  {
    assert b == a + (b - a);
    assert |b| == |a| + |b - a|;
  }

  lemma EncodedExtends(refs: Refs, refs': Refs, v: GoValue)
    requires Extends(refs, refs') && (TextOf(v).Some? ==> TextOf(v).value in refs)
    ensures TextOf(v).Some? ==> TextOf(v).value in refs'
    ensures Encoded(refs', v) == Encoded(refs, v)
  {
  }

  /** What is encoded stays so as the dictionary grows. */
  lemma ExtendEncoded(refs: Refs, refs': Refs, ev: GoEvent, e: Event)
    requires EncodedEvent(refs, ev, e) && Extends(refs, refs')
    ensures EncodedEvent(refs', ev, e)
  {
    hide Encoded;
    forall k | k in ev
      ensures k in refs' && (TextOf(ev[k]).Some? ==> TextOf(ev[k]).value in refs') && refs'[k] == refs[k]
    {
      assert k in refs;
    }
    forall k | k in ev && ev[k] != Object(None)
      ensures refs'[k] in e.value && e.value[refs'[k]] == Encoded(refs', ev[k])
    {
      EncodedExtends(refs, refs', ev[k]);
    }
    forall r | r in e.value ensures exists k :: k in ev && ev[k] != Object(None) && refs'[k] == r {
      var k :| k in ev && ev[k] != Object(None) && refs[k] == r;
      assert refs'[k] == r;
    }
  }

  lemma OneMoreEncoded(refs: Refs, next: Uint32, ev: GoEvent, e: Event, k: Bytes, v: GoValue)
    requires Dictionary(refs, next) && EncodedEvent(refs, ev, e) && k !in ev && k in refs
    requires TextOf(v).Some? ==> TextOf(v).value in refs
    ensures EncodedEvent(refs, ev[k := v], if v == Object(None) then e else Event(e.value[refs[k] := Encoded(refs, v)]))
  {
    hide Encoded, Onto, Numbered, TextOf;
    var ev' := ev[k := v];
    var e' := if v == Object(None) then e else Event(e.value[refs[k] := Encoded(refs, v)]);
    forall x | x in ev' && ev'[x] != Object(None)
      ensures refs[x] in e'.value && e'.value[refs[x]] == Encoded(refs, ev'[x])
    {
      if x != k { assert x in ev && refs[x] != refs[k]; }
    }
    forall r | r in e'.value ensures exists x :: x in ev' && ev'[x] != Object(None) && refs[x] == r {
      if r in e.value {
        var x :| x in ev && ev[x] != Object(None) && refs[x] == r;
        assert ev'[x] == ev[x];
      } else {
        assert refs[k] == r;
      }
    }
  }

  lemma DictionaryGrows(refs: Refs, next: Uint32, str: Bytes)
    requires Dictionary(refs, next) && str !in refs && next + 1 < TWO_32
    ensures Dictionary(refs[str := next + 1], next + 1)
  {
    var refs' := refs[str := next + 1];
    assert |refs'| == |refs| + 1 by {
      assert refs'.Keys == refs.Keys + {str};
      assert |refs'| == |refs'.Keys| && |refs| == |refs.Keys|;
    }
    assert Numbered(refs', next + 1) by { hide Injective, Onto; }
    assert Injective(refs') by { hide Onto; }
    assert Onto(refs', next + 1) by { OntoGrows(refs, next, str); }
  }

  lemma OntoGrows(refs: Refs, next: Uint32, str: Bytes)
    requires Onto(refs, next) && str !in refs && next + 1 < TWO_32
    ensures Onto(refs[str := next + 1], next + 1)
  {
    var refs' := refs[str := next + 1];
    forall r | 1 <= r <= next + 1 ensures Used(refs', r) {
      if r <= next {
        assert Used(refs, r);
        var s :| s in refs && refs[s] == r;
        assert refs'[s] == r;
      } else {
        assert refs'[str] == r;
      }
    }
  }
}

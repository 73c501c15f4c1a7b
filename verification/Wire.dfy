/** Field structure of the Protocol Buffers wire format: tags, lengths, skipTalaria, and messages as runs of fields. */
module Wire {
  import opened ByteStrings
  import opened Varints

  datatype Tag = Tag(field: Int32, kind: nat, size: nat)

  /** fieldNum := int32(wire >> 3); wireType := int(wire & 0x7) */
  function ReadTag(s: Bytes): (r: Result<Tag>)
    ensures r.Ok? ==> 1 <= r.value.size <= |s|
  {
    match ReadVarint(s, 64, 0, 0)
    case Err(e) => Err(e)
    case Ok(p) => Ok(Tag(ToInt32(p.0 / 8), p.0 % 8, p.1))
  }

  /** A length prefix: its value and its own size. A length that reaches past the buffer is an error, whether
      the source finds it by a negative sum or by comparing with the buffer's length. */
  function ReadLength(s: Bytes): (r: Result<(nat, nat)>)
    ensures r.Ok? ==> 1 <= r.value.1 && r.value.1 + r.value.0 <= |s|
  {
    match ReadVarint(s, 64, 0, 0)
    case Err(e) => Err(e)
    case Ok(p) =>
      var length := ToInt64(p.0);
      if length < 0 then Err(InvalidLength)
      else if p.1 + length > |s| then Err(UnexpectedEof)
      else Ok((length, p.1))
  }

  // ---- skipTalaria ----

  /** How far one field's payload moves the index; it may point past the end, as in the source. */
  function SkipPayload(kind: nat, s: Bytes): Result<nat> {
    if kind == 0 then
      match ReadVarint(s, 64, 0, 0)
      case Err(e) => Err(e)
      case Ok(p) => Ok(p.1)
    else if kind == 1 then Ok(8)
    else if kind == 2 then
      match ReadVarint(s, 64, 0, 0)
      case Err(e) => Err(e)
      case Ok(p) => if ToInt64(p.0) < 0 then Err(InvalidLength) else Ok(p.1 + ToInt64(p.0))
    else if kind == 3 || kind == 4 then Ok(0)
    else if kind == 5 then Ok(4)
    else Err(IllegalWireType)
  }

  /** The loop of skipTalaria on the unread bytes `s`, having read `at` bytes at group nesting `depth`. */
  function SkipFrom(s: Bytes, at: nat, depth: nat): (r: Result<nat>)
    ensures r.Ok? ==> r.value > at
    decreases |s|
  {
    if s == [] then Err(UnexpectedEof)
    else
      match ReadVarint(s, 64, 0, 0)
      case Err(e) => Err(e)
      case Ok(p) =>
        var kind := p.0 % 8;
        match SkipPayload(kind, s[p.1..])
        case Err(e) => Err(e)
        case Ok(w) =>
          if kind == 4 && depth == 0 then Err(UnexpectedEndOfGroup)
          else
            var depth' := if kind == 3 then depth + 1 else if kind == 4 then depth - 1 else depth;
            var n := p.1 + w;
            if at + n >= TWO_63 then Err(InvalidLength)
            else if depth' == 0 then Ok(at + n)
            else if n > |s| then Err(UnexpectedEof)
            else SkipFrom(s[n..], at + n, depth')
  }

  function Skip(s: Bytes): (r: Result<nat>)
    ensures r.Ok? ==> r.value > 0
  {
    SkipFrom(s, 0, 0)
  }

  lemma SkipPayloadStable(kind: nat, s: Bytes, x: Bytes)
    requires SkipPayload(kind, s).Ok?
    ensures SkipPayload(kind, s + x) == SkipPayload(kind, s)
  {
    hide ReadVarint;
    if kind == 0 || kind == 2 { ReadVarintStable(s, x, 64, 0, 0); }
  }

  /** A skip that succeeds does not depend on what follows. */
  lemma {:induction false} SkipStable(s: Bytes, x: Bytes, at: nat, depth: nat)
    requires SkipFrom(s, at, depth).Ok?
    ensures SkipFrom(s + x, at, depth) == SkipFrom(s, at, depth)
    decreases |s|
  {
    hide ReadVarint, SkipPayload;
    ReadVarintStable(s, x, 64, 0, 0);
    var p := ReadVarint(s, 64, 0, 0).value;
    var kind := p.0 % 8;
    assert (s + x)[p.1..] == s[p.1..] + x;
    SkipPayloadStable(kind, s[p.1..], x);
    var n := p.1 + SkipPayload(kind, s[p.1..]).value;
    var depth' := if kind == 3 then depth + 1 else if kind == 4 then depth - 1 else depth;
    if depth' != 0 {
      assert (s + x)[n..] == s[n..] + x;
      SkipStable(s[n..], x, at + n, depth');
    }
  }

  // ---- the fields a sender may write ----

  datatype Field =
    | VarintField(number: nat, payload: Bytes)
    | Fixed64Field(number: nat, payload: Bytes)
    | BytesField(number: nat, payload: Bytes)
    | GroupField(number: nat, fields: seq<Field>)
    | Fixed32Field(number: nat, payload: Bytes)

  /** Continuation bit on every byte but the last, ten bytes at most; not necessarily the shortest form. */
  predicate IsVarint(s: Bytes) {
    1 <= |s| <= 10 && s[|s| - 1] < 128 && forall i :: 0 <= i < |s| - 1 ==> s[i] >= 128
  }

  predicate WellFormed(f: Field) {
    && 1 <= f.number <= 0x1FFF_FFFF
    && match f
       case VarintField(_, p) => IsVarint(p)
       case Fixed64Field(_, p) => |p| == 8
       case BytesField(_, p) => |p| < TWO_63
       case GroupField(_, fs) => forall g :: g in fs ==> WellFormed(g)
       case Fixed32Field(_, p) => |p| == 4
  }

  function TagBytes(number: nat, kind: nat): Bytes { Varint(8 * number + kind) }

  function Encode(f: Field): Bytes
    decreases f, 1
  {
    match f
    case VarintField(n, p) => TagBytes(n, 0) + p
    case Fixed64Field(n, p) => TagBytes(n, 1) + p
    case BytesField(n, p) => TagBytes(n, 2) + (Varint(|p|) + p)
    case GroupField(n, fs) => TagBytes(n, 3) + (EncodeAll(fs) + TagBytes(n, 4))
    case Fixed32Field(n, p) => TagBytes(n, 5) + p
  }

  function EncodeAll(fs: seq<Field>): Bytes
    decreases fs, 0
  {
    if fs == [] then [] else Encode(fs[0]) + EncodeAll(fs[1..])
  }

  lemma {:induction false} ReadAnyVarint(p: Bytes, rest: Bytes, shift: nat, acc: nat)
    requires p != [] && p[|p| - 1] < 128 && forall i :: 0 <= i < |p| - 1 ==> p[i] >= 128
    requires shift + 7 * |p| < 71
    ensures ReadVarint(p + rest, 64, shift, acc).Ok?
    ensures ReadVarint(p + rest, 64, shift, acc).value.1 == |p|
  {
    hide Or, Low, Shl;
    var s := p + rest;
    assert s[0] == p[0];
    if |p| > 1 {
      assert s[1..] == p[1..] + rest;
      ReadAnyVarint(p[1..], rest, shift + 7, Or(acc, Low(Shl(s[0] % 128, shift), 64)));
    }
  }

  /** What skipTalaria does on a tag followed by a payload of known extent. */
  lemma SkipOne(number: nat, kind: nat, body: Bytes, rest: Bytes, at: nat, depth: nat)
    requires number <= 0x1FFF_FFFF && kind < 8
    requires SkipPayload(kind, body + rest) == Ok(|body|)
    requires kind == 4 ==> depth > 0
    requires at + |TagBytes(number, kind) + body| < TWO_63
    ensures var depth' := if kind == 3 then depth + 1 else if kind == 4 then depth - 1 else depth;
      var at' := at + |TagBytes(number, kind) + body|;
      SkipFrom(TagBytes(number, kind) + body + rest, at, depth)
      == if depth' == 0 then Ok(at') else SkipFrom(rest, at', depth')
  {
    hide ReadVarint, SkipPayload, Varint;
    var tag := TagBytes(number, kind);
    var s := tag + body + rest;
    VarintRoundTrip(8 * number + kind, body + rest);
    assert s == tag + (body + rest);
    assert s[|tag|..] == body + rest;
    assert s[|tag| + |body|..] == rest;
  }

  /** skipTalaria consumes exactly the extent of any well-formed field, at any nesting. */
  lemma {:induction false} SkipField(f: Field, rest: Bytes, at: nat, depth: nat)
    requires WellFormed(f) && at + |Encode(f)| < TWO_63
    ensures SkipFrom(Encode(f) + rest, at, depth)
         == if depth == 0 then Ok(at + |Encode(f)|) else SkipFrom(rest, at + |Encode(f)|, depth)
    decreases f, 1
  {
    hide ReadVarint, SkipFrom, Varint;
    match f
    case VarintField(n, p) =>
      ReadAnyVarint(p, rest, 0, 0);
      SkipOne(n, 0, p, rest, at, depth);
    case Fixed64Field(n, p) =>
      SkipOne(n, 1, p, rest, at, depth);
    case BytesField(n, p) =>
      var body := Varint(|p|) + p;
      VarintRoundTrip(|p|, p + rest);
      assert body + rest == Varint(|p|) + (p + rest);
      SkipOne(n, 2, body, rest, at, depth);
    case Fixed32Field(n, p) =>
      SkipOne(n, 5, p, rest, at, depth);
    case GroupField(n, fs) =>
      SkipGroup(n, fs, rest, at, depth);
  }

  lemma {:induction false} SkipGroup(n: nat, fs: seq<Field>, rest: Bytes, at: nat, depth: nat)
    requires n <= 0x1FFF_FFFF && forall g :: g in fs ==> WellFormed(g)
    requires at + |Encode(GroupField(n, fs))| < TWO_63
    ensures var group := Encode(GroupField(n, fs));
      SkipFrom(group + rest, at, depth)
      == if depth == 0 then Ok(at + |group|) else SkipFrom(rest, at + |group|, depth)
    decreases fs, 1
  {
    hide ReadVarint, SkipFrom, TagBytes, WellFormed, EncodeAll;
    var start, inner, end := TagBytes(n, 3), EncodeAll(fs), TagBytes(n, 4);
    assert Encode(GroupField(n, fs)) + rest == start + [] + (inner + (end + rest));
    assert start + [] == start && end + [] == end;
    SkipOne(n, 3, [], inner + (end + rest), at, depth);
    SkipFields(fs, end + rest, at + |start|, depth + 1);
    SkipOne(n, 4, [], rest, at + |start| + |inner|, depth + 1);
  }

  lemma {:induction false} SkipFields(fs: seq<Field>, rest: Bytes, at: nat, depth: nat)
    requires forall g :: g in fs ==> WellFormed(g)
    requires at + |EncodeAll(fs)| < TWO_63 && depth > 0
    ensures SkipFrom(EncodeAll(fs) + rest, at, depth) == SkipFrom(rest, at + |EncodeAll(fs)|, depth)
    decreases fs, 0
  {
    hide SkipFrom, WellFormed;
    if fs == [] {
      assert EncodeAll(fs) + rest == rest;
    } else {
      var head, tail := Encode(fs[0]), EncodeAll(fs[1..]);
      assert EncodeAll(fs) + rest == head + (tail + rest);
      SkipField(fs[0], tail + rest, at, depth);
      SkipFields(fs[1..], rest, at + |head|, depth);
    }
  }

  /** What skipTalaria refuses: the two wire types there are not, and a group that ends without having begun. */
  lemma SkipRefuses(number: nat, kind: nat, rest: Bytes)
    requires number <= 0x1FFF_FFFF
    ensures kind == 6 || kind == 7 ==> Skip(TagBytes(number, kind) + rest) == Err(IllegalWireType)
    ensures kind == 4 ==> Skip(TagBytes(number, kind) + rest) == Err(UnexpectedEndOfGroup)
  {
    hide ReadVarint, Varint;
    if kind == 4 || kind == 6 || kind == 7 {
      VarintRoundTrip(8 * number + kind, rest);
      assert TagBytes(number, kind) != [];
    }
  }

  // ---- messages as runs of fields ----

  /** An Unmarshal loop: `step` decodes one field into the message and yields its extent. */
  function Fields<M>(step: (Bytes, M) -> Result<(M, nat)>, s: Bytes, m: M): Result<M>
    decreases |s|
  {
    if s == [] then Ok(m)
    else
      match step(s, m)
      case Err(e) => Err(e)
      case Ok(p) => if 1 <= p.1 <= |s| then Fields(step, s[p.1..], p.0) else Err(UnexpectedEof)
  }

  ghost predicate Stable<M(!new)>(step: (Bytes, M) -> Result<(M, nat)>) {
    forall s: Bytes, x: Bytes, m: M :: step(s, m).Ok? ==> step(s + x, m) == step(s, m)
  }

  /** Decoding a concatenation continues from the message decoded so far. */
  lemma {:induction false} FieldsOfConcat<M(!new)>(step: (Bytes, M) -> Result<(M, nat)>, a: Bytes, b: Bytes, m: M)
    requires Stable(step)
    requires Fields(step, a, m).Ok?
    ensures Fields(step, a + b, m) == Fields(step, b, Fields(step, a, m).value)
    decreases |a|
  {
    if a == [] {
      assert a + b == b;
    } else {
      var p := step(a, m).value;
      assert step(a + b, m) == step(a, m);
      assert (a + b)[p.1..] == a[p.1..] + b;
      FieldsOfConcat(step, a[p.1..], b, p.0);
    }
  }

  /** The default branch of an Unmarshal: step over the field and leave the message alone. */
  function SkipUnknown<M>(s: Bytes, m: M): (r: Result<(M, nat)>)
    ensures r.Ok? ==> r.value.0 == m && 1 <= r.value.1 <= |s|
  {
    match Skip(s)
    case Err(e) => Err(e)
    case Ok(n) => if n > |s| then Err(UnexpectedEof) else Ok((m, n))
  }

  lemma ReadTagStable(s: Bytes, x: Bytes)
    requires ReadTag(s).Ok?
    ensures ReadTag(s + x) == ReadTag(s)
  {
    hide ReadVarint;
    ReadVarintStable(s, x, 64, 0, 0);
  }

  lemma ReadLengthStable(s: Bytes, x: Bytes)
    requires ReadLength(s).Ok?
    ensures ReadLength(s + x) == ReadLength(s)
  {
    hide ReadVarint;
    ReadVarintStable(s, x, 64, 0, 0);
  }

  lemma ReadTagOf(number: nat, kind: nat, rest: Bytes)
    requires number <= 0x1FFF_FFFF && kind < 8
    ensures ReadTag(TagBytes(number, kind) + rest) == Ok(Tag(number, kind, |TagBytes(number, kind)|))
  {
    hide ReadVarint, Varint;
    VarintRoundTrip(8 * number + kind, rest);
  }

  lemma ReadLengthOf(n: nat, rest: Bytes)
    requires n < TWO_63 && n <= |rest|
    ensures ReadLength(Varint(n) + rest) == Ok((n, |Varint(n)|))
  {
    hide ReadVarint, Varint;
    VarintRoundTrip(n, rest);
  }

  /** A length that is negative as an int64, or that the buffer does not have, is refused. */
  lemma ReadLengthRefuses(n: Uint64, rest: Bytes)
    ensures n >= TWO_63 ==> ReadLength(Varint(n) + rest) == Err(InvalidLength)
    ensures |rest| < n < TWO_63 ==> ReadLength(Varint(n) + rest) == Err(UnexpectedEof)
  {
    hide ReadVarint, Varint;
    VarintRoundTrip(n, rest);
  }

  // ---- skipTalaria as written ----

  /** The switch on the wire type: how far the index moves past the tag. */
  method PayloadExtent(data: Bytes, at: nat, kind: nat) returns (r: Result<nat>)
    requires at <= |data|
    ensures r == SkipPayload(kind, data[at..])
  {
    hide ReadVarint;
    if kind == 0 {
      var v := DecodeVarint(data, at, 64, 0);
      if v.Err? { return Err(v.error); }
      return Ok(v.value.1);
    } else if kind == 1 {
      return Ok(8);
    } else if kind == 2 {
      var v := DecodeVarint(data, at, 64, 0);
      if v.Err? { return Err(v.error); }
      var length := ToInt64(v.value.0);
      if length < 0 { return Err(InvalidLength); }
      return Ok(v.value.1 + length);
    } else if kind == 3 || kind == 4 {
      return Ok(0);
    } else if kind == 5 {
      return Ok(4);
    }
    return Err(IllegalWireType);
  }

  method SkipTalaria(data: Bytes) returns (r: Result<nat>)
    ensures r == Skip(data)
  {
    hide ReadVarint, SkipPayload;
    var i, depth := 0, 0;
    assert data[0..] == data;
    while i < |data|
      invariant 0 <= i <= |data| && Skip(data) == SkipFrom(data[i..], i, depth)
      decreases |data| - i
    {
      ghost var s := data[i..];
      var tag := DecodeVarint(data, i, 64, 0);
      if tag.Err? { return Err(tag.error); }
      var kind, j := tag.value.0 % 8, i + tag.value.1;
      assert data[j..] == s[tag.value.1..];
      var payload := PayloadExtent(data, j, kind);
      if payload.Err? { return Err(payload.error); }
      j := j + payload.value;
      if kind == 3 {
        depth := depth + 1;
      } else if kind == 4 {
        if depth == 0 { return Err(UnexpectedEndOfGroup); }
        depth := depth - 1;
      }
      if j >= TWO_63 { return Err(InvalidLength); }
      if depth == 0 { return Ok(j); }
      if j > |data| { return Err(UnexpectedEof); }
      assert data[j..] == s[j - i..];
      i := j;
    }
    return Err(UnexpectedEof);
  }
}

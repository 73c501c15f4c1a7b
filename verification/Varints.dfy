/** Base 128 varints of the Protocol Buffers encoding: sovTalaria, encodeVarintTalaria and the decoding loop. */
module Varints {
  import opened ByteStrings

  const TWO_32 := 0x1_0000_0000
  const TWO_63 := 0x8000_0000_0000_0000
  const TWO_64 := 0x1_0000_0000_0000_0000

  type Uint32 = x: int | 0 <= x < TWO_32
  type Uint64 = x: int | 0 <= x < TWO_64
  type Int32 = x: int | -0x8000_0000 <= x < 0x8000_0000
  type Int64 = x: int | -TWO_63 <= x < TWO_63

  datatype Error =
    | IntOverflow | UnexpectedEof | InvalidLength | EndGroup | IllegalTag
    | WrongWireType | UnexpectedEndOfGroup | IllegalWireType

  datatype Result<+T> = Ok(value: T) | Err(error: Error)

  /** Go's conversions uint64(x), int32(x) and int64(x). */
  function ToUint64(x: int): Uint64 { x % TWO_64 }
  function ToInt32(x: int): Int32 { var u := x % TWO_32; if u < 0x8000_0000 then u else u - TWO_32 }
  function ToInt64(x: int): Int64 { var u := x % TWO_64; if u < TWO_63 then u else u - TWO_64 }

  // ---- bits: Go's |, << and truncation, on non-negative integers ----

  function Or(a: nat, b: nat): nat
    decreases a + b
  {
    if a == 0 && b == 0 then 0
    else 2 * Or(a / 2, b / 2) + (if a % 2 == 1 || b % 2 == 1 then 1 else 0)
  }

  function Shl(x: nat, n: nat): nat {
    if n == 0 then x else 2 * Shl(x, n - 1)
  }

  /** The low `width` bits. */
  function Low(x: nat, width: nat): nat {
    if width == 0 then 0 else 2 * Low(x / 2, width - 1) + x % 2
  }

  lemma {:induction false} OrZero(a: nat)
    ensures Or(a, 0) == a && Or(0, a) == a
  {
    if a != 0 { OrZero(a / 2); }
  }

  lemma {:induction false} OrAssociative(a: nat, b: nat, c: nat)
    ensures Or(Or(a, b), c) == Or(a, Or(b, c))
    decreases a + b + c
  {
    if a + b + c > 0 {
      OrAssociative(a / 2, b / 2, c / 2);
      assert Or(a, b) / 2 == Or(a / 2, b / 2) && Or(b, c) / 2 == Or(b / 2, c / 2);
    }
  }

  lemma {:induction false} LowOfOr(a: nat, b: nat, w: nat)
    ensures Low(Or(a, b), w) == Or(Low(a, w), Low(b, w))
  {
    if w == 0 {
    } else {
      LowOfOr(a / 2, b / 2, w - 1);
      assert Or(a, b) / 2 == Or(a / 2, b / 2);
      var la, lb := Low(a, w), Low(b, w);
      assert la / 2 == Low(a / 2, w - 1) && lb / 2 == Low(b / 2, w - 1);
      assert la % 2 == a % 2 && lb % 2 == b % 2;
    }
  }

  lemma {:induction false} ShlOfOr(a: nat, b: nat, n: nat)
    ensures Shl(Or(a, b), n) == Or(Shl(a, n), Shl(b, n))
  {
    if n > 0 { ShlOfOr(a, b, n - 1); }
  }

  lemma {:induction false} ShlShl(x: nat, a: nat, b: nat)
    ensures Shl(Shl(x, a), b) == Shl(x, a + b)
  {
    if b > 0 { ShlShl(x, a, b - 1); }
  }

  /** Or of disjoint bits is addition. */
  lemma {:induction false} OrDisjoint(a: nat, q: nat, n: nat)
    requires a < Shl(1, n)
    ensures Or(a, Shl(q, n)) == a + Shl(q, n)
  {
    if n == 0 {
      OrZero(q);
    } else {
      OrDisjoint(a / 2, q, n - 1);
    }
  }

  /** A number is its low seven bits or the rest shifted by seven. */
  lemma SevenBits(u: nat)
    ensures Or(u % 128, Shl(u / 128, 7)) == u
  {
    assert Shl(1, 7) == 128;
    var q := u / 128;
    assert Shl(q, 1) == 2 * q;
    assert Shl(q, 3) == 8 * q;
    assert Shl(q, 5) == 32 * q;
    OrDisjoint(u % 128, q, 7);
  }

  lemma HalfDivMod(u: nat, h: nat)
    requires h > 0
    ensures u / (2 * h) == u / 2 / h
    ensures u % (2 * h) == 2 * (u / 2 % h) + u % 2
  {
    var v := u / 2;
    var q, r := v / h, v % h;
    assert v == q * h + r;
    assert u == q * (2 * h) + (2 * r + u % 2);
    DivModUnique(u, q, 2 * r + u % 2, 2 * h);
  }

  lemma MulLeq(a: int, b: int, c: nat)
    requires a <= b
    ensures a * c <= b * c
  {
  }

  lemma DivModUnique(x: int, q: int, r: int, m: int)
    requires m > 0 && 0 <= r < m && x == q * m + r
    ensures x % m == r && x / m == q
  {
    var q', r' := x / m, x % m;
    assert x == q' * m + r';
    if q < q' { MulLeq(q + 1, q', m); }
    if q' < q { MulLeq(q' + 1, q, m); }
  }

  /** Keeping the low bits is the remainder by the power of two. */
  lemma {:induction false} LowIsMod(x: nat, w: nat)
    ensures Shl(1, w) > 0 && Low(x, w) == x % Shl(1, w)
  {
    if w > 0 {
      LowIsMod(x / 2, w - 1);
      HalfDivMod(x, Shl(1, w - 1));
    }
  }

  lemma PowerValues()
    ensures Shl(1, 32) == TWO_32 && Shl(1, 64) == TWO_64
  {
    assert Shl(1, 8) == 256;
    assert Shl(1, 16) == 65536;
    assert Shl(1, 24) == 0x100_0000;
    assert Shl(1, 32) == TWO_32;
    assert Shl(1, 40) == 0x100_0000_0000;
    assert Shl(1, 48) == 0x1_0000_0000_0000;
    assert Shl(1, 56) == 0x100_0000_0000_0000;
  }

  // ---- encoding ----

  function Varint(v: nat): (s: Bytes)
    ensures |s| >= 1
  {
    if v < 128 then [v] else [v % 128 + 128] + Varint(v / 128)
  }

  /** math/bits.Len64 */
  function Len64(x: nat): nat {
    if x == 0 then 0 else 1 + Len64(x / 2)
  }

  function Sov(x: nat): nat {
    (Len64(if x % 2 == 0 then x + 1 else x) + 6) / 7
  }

  lemma Len64Shift7(x: nat)
    requires x >= 128
    ensures Len64(x) == 7 + Len64(x / 128)
  {
    assert Len64(x) == 2 + Len64(x / 4) by { assert x / 2 / 2 == x / 4; }
    assert Len64(x / 4) == 2 + Len64(x / 16) by { assert x / 4 / 2 / 2 == x / 16; }
    assert Len64(x / 16) == 2 + Len64(x / 64) by { assert x / 16 / 2 / 2 == x / 64; }
    assert x / 64 / 2 == x / 128;
  }

  lemma Len64OrOne(x: nat)
    requires x >= 1
    ensures Len64(if x % 2 == 0 then x + 1 else x) == Len64(x)
  {
    if x % 2 == 0 { assert (x + 1) / 2 == x / 2; }
  }

  /** sovTalaria is the exact length of the varint. */
  lemma {:induction false} SovIsLength(v: nat)
    ensures Sov(v) == |Varint(v)|
  {
    if v < 128 {
      Len64Small(if v % 2 == 0 then v + 1 else v);
    } else {
      SovIsLength(v / 128);
      Len64OrOne(v);
      Len64OrOne(v / 128);
      Len64Shift7(v);
    }
  }

  lemma Len64Small(x: nat)
    requires 1 <= x < 128
    ensures 1 <= Len64(x) <= 7
  {
    Len64Bound(x, 7);
  }

  lemma {:induction false} Len64Bound(x: nat, n: nat)
    requires x < Shl(1, n)
    ensures Len64(x) <= n
  {
    if x > 0 && n > 0 { Len64Bound(x / 2, n - 1); }
  }

  // ---- decoding ----

  /** The decoding loop: or the low seven bits of each byte into a `width`-bit accumulator; yields value and length. */
  function ReadVarint(s: Bytes, width: nat, shift: nat, acc: nat): (r: Result<(nat, nat)>)
    ensures r.Ok? ==> 1 <= r.value.1 <= |s|
  {
    if shift >= 64 then Err(IntOverflow)
    else if s == [] then Err(UnexpectedEof)
    else
      var acc' := Or(acc, Low(Shl(s[0] % 128, shift), width));
      if s[0] < 128 then Ok((acc', 1))
      else
        match ReadVarint(s[1..], width, shift + 7, acc')
        case Err(e) => Err(e)
        case Ok(p) => Ok((p.0, p.1 + 1))
  }

  /** What has been decoded does not depend on what follows. */
  lemma {:induction false} ReadVarintStable(s: Bytes, x: Bytes, width: nat, shift: nat, acc: nat)
    requires ReadVarint(s, width, shift, acc).Ok?
    ensures ReadVarint(s + x, width, shift, acc) == ReadVarint(s, width, shift, acc)
  {
    var acc' := Or(acc, Low(Shl(s[0] % 128, shift), width));
    if s[0] >= 128 {
      assert (s + x)[1..] == s[1..] + x;
      ReadVarintStable(s[1..], x, width, shift + 7, acc');
    }
  }

  /** Orring the low seven bits in and then the rest is orring the whole number in. */
  lemma OrInPieces(u: nat, width: nat, shift: nat, acc: nat)
    ensures Or(Or(acc, Low(Shl(u % 128, shift), width)), Low(Shl(u / 128, shift + 7), width))
         == Or(acc, Low(Shl(u, shift), width))
  {
    var d, q := Shl(u % 128, shift), Shl(u / 128, shift + 7);
    OrAssociative(acc, Low(d, width), Low(q, width));
    LowOfOr(d, q, width);
    ShlShl(u / 128, 7, shift);
    ShlOfOr(u % 128, Shl(u / 128, 7), shift);
    SevenBits(u);
  }

  /** The decoding loop, one byte at a time. */
  lemma ReadVarintStep(b: Byte, rest: Bytes, width: nat, shift: nat, acc: nat, acc': nat)
    requires shift < 64 && acc' == Or(acc, Low(Shl(b % 128, shift), width))
    ensures b < 128 ==> ReadVarint([b] + rest, width, shift, acc) == Ok((acc', 1))
    ensures b >= 128 && ReadVarint(rest, width, shift + 7, acc').Ok? ==>
              var p := ReadVarint(rest, width, shift + 7, acc').value;
              ReadVarint([b] + rest, width, shift, acc) == Ok((p.0, p.1 + 1))
  {
    hide Or, Low, Shl;
    assert ([b] + rest)[1..] == rest;
  }

  /** Decoding an encoded number ors it, truncated to the accumulator's width, into the accumulator. */
  lemma {:induction false} ReadVarintOfVarint(u: nat, rest: Bytes, width: nat, shift: nat, acc: nat)
    requires shift + 7 * |Varint(u)| < 71
    ensures ReadVarint(Varint(u) + rest, width, shift, acc)
         == Ok((Or(acc, Low(Shl(u, shift), width)), |Varint(u)|))
  {
    hide Or, Low, Shl, ReadVarint;
    var acc' := Or(acc, Low(Shl(u % 128, shift), width));
    if u < 128 {
      ReadVarintStep(u, rest, width, shift, acc, acc');
    } else {
      var b, tail := u % 128 + 128, Varint(u / 128);
      assert Varint(u) + rest == [b] + (tail + rest);
      ReadVarintStep(b, tail + rest, width, shift, acc, acc');
      ReadVarintOfVarint(u / 128, rest, width, shift + 7, acc');
      OrInPieces(u, width, shift, acc);
    }
  }

  lemma VarintLength(u: Uint64)
    ensures |Varint(u)| <= 10
  {
    SovIsLength(u);
    assert Len64(if u % 2 == 0 then u + 1 else u) <= 64 by {
      PowerValues();
      Len64Bound(if u % 2 == 0 then u + 1 else u, 64);
    }
  }

  /** The two widths the decoders use, from a zero accumulator. */
  lemma VarintRoundTrip(u: Uint64, rest: Bytes)
    ensures ReadVarint(Varint(u) + rest, 64, 0, 0) == Ok((u, |Varint(u)|))
    ensures ReadVarint(Varint(u) + rest, 32, 0, 0) == Ok((u % TWO_32, |Varint(u)|))
  {
    hide Or, Low, Shl, ReadVarint, Varint;
    VarintLength(u);
    ReadTruncated(u, rest, 64);
    ReadTruncated(u, rest, 32);
    assert u % Shl(1, 64) == u by { PowerValues(); }
    assert u % Shl(1, 32) == u % TWO_32 by { PowerValues(); }
  }

  lemma ReadTruncated(u: nat, rest: Bytes, width: nat)
    requires |Varint(u)| <= 10
    ensures Shl(1, width) > 0
    ensures ReadVarint(Varint(u) + rest, width, 0, 0) == Ok((u % Shl(1, width), |Varint(u)|))
  {
    hide Or, Low, ReadVarint, Varint;
    ReadVarintOfVarint(u, rest, width, 0, 0);
    LowIsMod(u, width);
    OrZero(Low(u, width));
  }

  /** A varint that does not end is refused: at the end of the input, or after ten bytes. */
  lemma {:induction false} ReadVarintRefuses(s: Bytes, width: nat, shift: nat, acc: nat)
    requires forall i :: 0 <= i < |s| ==> s[i] >= 128
    ensures ReadVarint(s, width, shift, acc) == Err(if shift + 7 * |s| >= 64 then IntOverflow else UnexpectedEof)
  {
    hide Or, Low, Shl;
    if shift < 64 && s != [] {
      ReadVarintRefuses(s[1..], width, shift + 7, Or(acc, Low(Shl(s[0] % 128, shift), width)));
    }
  }

  /** encodeVarintTalaria: writes the varint so that it ends just before `offset`. */
  method EncodeVarint(data: array<Byte>, offset: nat, v: Uint64) returns (base: nat)
    requires Sov(v) <= offset <= data.Length
    modifies data
    ensures base == offset - Sov(v)
    ensures data[base..offset] == Varint(v)
    ensures forall j :: 0 <= j < base || offset <= j < data.Length ==> data[j] == old(data[j])
  {
    hide Sov, Varint, Len64;
    SovIsLength(v);
    base := offset - Sov(v);
    var o, w: Uint64 := base, v;
    ghost var all := Varint(v);
    while w >= 128
      invariant base <= o < offset
      invariant all[o - base..] == Varint(w)
      invariant forall j :: base <= j < o ==> data[j] == all[j - base]
      invariant forall j :: 0 <= j < base || offset <= j < data.Length ==> data[j] == old(data[j])
      decreases w
    {
      VarintCases(w);
      var low, high: Uint64 := w % 128 + 128, w / 128;
      NextByte(all, o - base, low, Varint(high));
      data[o] := low;
      w := high;
      o := o + 1;
    }
    VarintCases(w);
    NextByte(all, o - base, w, []);
    data[o] := w;
  }

  lemma VarintCases(w: Uint64)
    ensures w < 128 ==> Varint(w) == [w] + []
    ensures w >= 128 ==> Varint(w) == [w % 128 + 128] + Varint(w / 128)
  {
  }

  lemma NextByte(all: Bytes, k: nat, b: Byte, tail: Bytes)
    requires k <= |all| && all[k..] == [b] + tail
    ensures k < |all| && all[k] == b && all[k + 1..] == tail
  {
    assert |all[k..]| == 1 + |tail|;
    assert all[k] == all[k..][0];
    assert all[k + 1..] == all[k..][1..];
  }

  /** The inlined decoding loop of the Unmarshal methods, from position `at`. */
  method DecodeVarint(data: Bytes, at: nat, width: nat, init: nat) returns (r: Result<(nat, nat)>)
    requires at <= |data|
    ensures r == ReadVarint(data[at..], width, 0, init)
  {
    var i, shift, acc := at, 0, init;
    while true
      invariant at <= i <= |data|
      invariant ReadVarint(data[at..], width, 0, init)
             == match ReadVarint(data[i..], width, shift, acc)
                case Err(e) => Err(e)
                case Ok(p) => Ok((p.0, p.1 + (i - at)))
      decreases |data| - i
    {
      if shift >= 64 { return Err(IntOverflow); }
      if i >= |data| { return Err(UnexpectedEof); }
      var b := data[i];
      assert data[i..][1..] == data[i + 1..];
      i := i + 1;
      acc := Or(acc, Low(Shl(b % 128, shift), width));
      if b < 128 { return Ok((acc, i - at)); }
      shift := shift + 7;
    }
  }
}

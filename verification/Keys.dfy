/** Storage keys (key.go) and the byte range a query becomes (query.go). */
module Keys {
  import opened ByteStrings
  import opened Varints

  /** hash, seconds, sequence number: 4 + 8 + 4 big-endian bytes */
  function KeyOf(hash: Uint32, seconds: Uint64, sequence: Uint32): (k: Bytes)
    ensures |k| == 16
  {
    BigEndian(hash, 4) + (BigEndian(seconds, 8) + BigEndian(sequence, 4))
  }

  function HashOf(k: Bytes): nat
    requires |k| >= 4
  {
    FromBigEndian(k[..4])
  }

  lemma HashOfKey(hash: Uint32, seconds: Uint64, sequence: Uint32)
    ensures HashOf(KeyOf(hash, seconds, sequence)) == hash
  {
    hide FromBigEndian, BigEndian;
    assert KeyOf(hash, seconds, sequence)[..4] == BigEndian(hash, 4);
    assert hash < Pow256(4) by { Pow256Values(); }
    BigEndianRoundTrip(hash, 4);
  }

  /** Byte order on keys is numeric order on (hash, seconds, sequence). */
  lemma KeyOrder(h: Uint32, s: Uint64, n: Uint32, h': Uint32, s': Uint64, n': Uint32)
    ensures Leq(KeyOf(h, s, n), KeyOf(h', s', n'))
       <==> h < h' || (h == h' && (s < s' || (s == s' && n <= n')))
  {
    hide BigEndian, Leq;
    assert h < Pow256(4) && h' < Pow256(4) && n < Pow256(4) && n' < Pow256(4) by { Pow256Values(); }
    assert s < Pow256(8) && s' < Pow256(8) by { Pow256Values(); }
    var t, t' := BigEndian(n, 4), BigEndian(n', 4);
    BigEndianOrder(h, h', 4, BigEndian(s, 8) + t, BigEndian(s', 8) + t');
    BigEndianOrder(s, s', 8, t, t');
    BigEndianOrder(n, n', 4, [], []);
    assert t + [] == t && t' + [] == t';
    LeqReflexive([]);
  }

  lemma KeysDiffer(h: Uint32, s: Uint64, n: Uint32, h': Uint32, s': Uint64, n': Uint32)
    requires (h, s, n) != (h', s', n')
    ensures KeyOf(h, s, n) != KeyOf(h', s', n')
  {
    hide KeyOf;
    KeyOrder(h, s, n, h', s', n');
    KeyOrder(h', s', n', h, s, n);
    LeqReflexive(KeyOf(h, s, n));
  }

  /** The process-wide key generator: murmur3.StringSum32 and the `next` counter. */
  class Generator {
    const sum32: Bytes -> Uint32
    var next: Uint32

    constructor (sum32: Bytes -> Uint32)
      ensures this.sum32 == sum32 && next == 0
    {
      this.sum32 := sum32;
      next := 0;
    }

    method PutBigEndian(out: array<Byte>, at: nat, n: nat, v: nat)
      requires at + n <= out.Length
      modifies out
      ensures out[at..at + n] == BigEndian(v, n)
      ensures forall j :: 0 <= j < at || at + n <= j < out.Length ==> out[j] == old(out[j])
    {
      var k, w := n, v;
      while k > 0
        invariant 0 <= k <= n && BigEndian(v, n) == BigEndian(w, k) + out[at + k..at + n]
        invariant forall j :: 0 <= j < at || at + n <= j < out.Length ==> out[j] == old(out[j])
      {
        ghost var tail := out[at + k..at + n];
        k := k - 1;
        out[at + k] := w % 256;
        assert out[at + k..at + n] == [w % 256] + tail;
        w := w / 256;
      }
    }

    /** key.New, at a time whose Unix seconds are `unix` */
    method New(eventName: Bytes, unix: Int64) returns (k: Bytes)
      modifies this`next
      ensures next == (old(next) + 1) % TWO_32
      ensures k == KeyOf(sum32(eventName), ToUint64(unix), next)
    {
      hide BigEndian;
      var out := new Byte[16];
      next := (next + 1) % TWO_32;
      PutBigEndian(out, 0, 4, sum32(eventName));
      PutBigEndian(out, 4, 8, ToUint64(unix));
      assert out[0..4] == BigEndian(sum32(eventName), 4);
      PutBigEndian(out, 12, 4, next);
      assert out[0..4] == BigEndian(sum32(eventName), 4) && out[4..12] == BigEndian(ToUint64(unix), 8);
      k := out[..];
      assert k[..4] == out[0..4] && k[4..12] == out[4..12] && k[12..] == out[12..16];
      SplitKey(k);
    }
  }

  lemma SplitKey(k: Bytes)
    requires |k| == 16
    ensures k == k[..4] + (k[4..12] + k[12..])
  {
  }

  /** The keys a run of New calls returns, from a given counter value. */
  function Generated(next: Uint32, calls: seq<(Uint32, Uint64)>): (ks: seq<Bytes>)
    ensures |ks| == |calls|
    decreases |calls|
  {
    if calls == [] then []
    else
      var n := (next + 1) % TWO_32;
      [KeyOf(calls[0].0, calls[0].1, n)] + Generated(n, calls[1..])
  }

  lemma {:induction false} GeneratedAt(next: Uint32, calls: seq<(Uint32, Uint64)>, i: nat)
    requires i < |calls|
    ensures Generated(next, calls)[i] == KeyOf(calls[i].0, calls[i].1, (next + 1 + i) % TWO_32)
    decreases |calls|
  {
    hide KeyOf;
    if i > 0 {
      GeneratedAt((next + 1) % TWO_32, calls[1..], i - 1);
    }
  }

  /** The counter may overflow, yet any 2^32 consecutive keys are distinct. */
  lemma KeysDistinct(next: Uint32, calls: seq<(Uint32, Uint64)>, i: nat, j: nat)
    requires i < j < |calls| && j - i < TWO_32
    ensures Generated(next, calls)[i] != Generated(next, calls)[j]
  {
    hide KeyOf, Generated;
    GeneratedAt(next, calls, i);
    GeneratedAt(next, calls, j);
    var a, b := (next + 1 + i) % TWO_32, (next + 1 + j) % TWO_32;
    assert a != b;
    KeysDiffer(calls[i].0, calls[i].1, a, calls[j].0, calls[j].1, b);
  }

  /** PrefixOf: the append loop computes the common prefix. */
  method PrefixOf(seek: Bytes, until: Bytes) returns (prefix: Bytes)
    ensures prefix == CommonPrefix(seek, until)
  {
    prefix := [];
    var length := |seek|;
    if |until| < length { length := |until|; }
    var i := 0;
    assert seek[0..] == seek && until[0..] == until;
    while i < length
      invariant 0 <= i <= length && CommonPrefix(seek, until) == prefix + CommonPrefix(seek[i..], until[i..])
    {
      if seek[i] != until[i] { return; }
      assert seek[i..][1..] == seek[i + 1..] && until[i..][1..] == until[i + 1..];
      prefix := prefix + [seek[i]];
      i := i + 1;
    }
  }

  function First(): (k: Bytes)
    ensures |k| == 16
  {
    seq(16, _ => 0)
  }

  function Last(): (k: Bytes)
    ensures |k| == 16
  {
    seq(16, _ => 255)
  }

  lemma {:induction false} ZerosLeast(n: nat, k: Bytes)
    requires |k| == n
    ensures Leq(seq(n, _ => 0), k)
  {
    if n > 0 {
      assert seq(n, _ => 0)[1..] == seq(n - 1, _ => 0);
      ZerosLeast(n - 1, k[1..]);
    }
  }

  lemma {:induction false} OnesGreatest(n: nat, k: Bytes)
    requires |k| == n
    ensures Leq(k, seq(n, _ => 255))
  {
    if n > 0 {
      assert seq(n, _ => 255)[1..] == seq(n - 1, _ => 255);
      OnesGreatest(n - 1, k[1..]);
    }
  }

  /** Scanning from First() to Last() misses no key. */
  lemma FirstToLastIsEverything(k: Bytes)
    requires |k| == 16
    ensures Leq(First(), k) && Leq(k, Last())
  {
    ZerosLeast(16, k);
    OnesGreatest(16, k);
    assert First() == seq(16, _ => 0) && Last() == seq(16, _ => 255);
  }

  // ---- queries ----

  datatype Query = Query(begin: Bytes, until: Bytes)

  /** newQuery keeps the first twelve bytes, dropping the sequence number. */
  function QueryOf(hash: Uint32, from: Uint64, until: Uint64): Query {
    Query(BigEndian(hash, 4) + BigEndian(from, 8), BigEndian(hash, 4) + BigEndian(until, 8))
  }

  method NewQuery(g: Generator, keyColumn: Bytes, from: Int64, until: Int64) returns (q: Query)
    modifies g`next
    ensures q == QueryOf(g.sum32(keyColumn), ToUint64(from), ToUint64(until))
    ensures g.next == (old(g.next) + 2) % TWO_32
  {
    hide BigEndian;
    var t0 := g.New(keyColumn, from);
    var t1 := g.New(keyColumn, until);
    var h := g.sum32(keyColumn);
    assert t0[0..12] == BigEndian(h, 4) + BigEndian(ToUint64(from), 8);
    assert t1[0..12] == BigEndian(h, 4) + BigEndian(ToUint64(until), 8);
    q := Query(t0[0..12], t1[0..12]);
  }

  predicate InRange(q: Query, k: Bytes) { Leq(q.begin, k) && Leq(k, q.until) }

  /** The scan is exact: a key is in the byte range exactly when it has the query's hash and from <= seconds < until. */
  lemma IndexScanExact(h: Uint32, from: Uint64, until: Uint64, kh: Uint32, ks: Uint64, kn: Uint32)
    ensures InRange(QueryOf(h, from, until), KeyOf(kh, ks, kn)) <==> kh == h && from <= ks < until
  {
    hide BigEndian, Leq;
    assert h < Pow256(4) && kh < Pow256(4) by { Pow256Values(); }
    assert from < Pow256(8) && until < Pow256(8) && ks < Pow256(8) by { Pow256Values(); }
    var tail := BigEndian(kn, 4);
    BigEndianOrder(h, kh, 4, BigEndian(from, 8), BigEndian(ks, 8) + tail);
    BigEndianOrder(from, ks, 8, [], tail);
    BigEndianOrder(kh, h, 4, BigEndian(ks, 8) + tail, BigEndian(until, 8));
    BigEndianOrder(ks, until, 8, tail, []);
    assert BigEndian(from, 8) + [] == BigEndian(from, 8) && BigEndian(until, 8) + [] == BigEndian(until, 8);
    EmptyLeast(tail);
  }

  lemma EmptyLeast(t: Bytes)
    requires t != []
    ensures Leq([], t) && !Leq(t, [])
  {
  }

  /** Bounds before 1970 wrap to the top of the unsigned order. For stored times, which Append keeps at 0 or later,
      the scan follows the signed bounds exactly when both have the same sign or the upper one is 0. */
  lemma SignedScanExact(h: Uint32, from: Int64, until: Int64, n: Uint32)
    ensures (forall ks: Int64 :: 0 <= ks ==>
              (InRange(QueryOf(h, ToUint64(from), ToUint64(until)), KeyOf(h, ks, n)) <==> from <= ks < until))
       <==> (0 <= from <==> 0 <= until) || until == 0
  {
    hide QueryOf, KeyOf, InRange;
    var q := QueryOf(h, ToUint64(from), ToUint64(until));
    forall ks: Int64 | 0 <= ks
      ensures InRange(q, KeyOf(h, ks, n)) <==> ToUint64(from) <= ks < ToUint64(until)
    {
      IndexScanExact(h, ToUint64(from), ToUint64(until), h, ks, n);
    }
    if from >= 0 && until < 0 {
      assert InRange(q, KeyOf(h, from, n));
    } else if from < 0 && until > 0 {
      assert !InRange(q, KeyOf(h, 0, n));
    }
  }
}

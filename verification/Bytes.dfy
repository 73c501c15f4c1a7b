/** Byte strings as Go's []byte, with the order of bytes.Compare. */
module ByteStrings {
  type Byte = b: int | 0 <= b < 256
  type Bytes = seq<Byte>

  datatype Option<+T> = None | Some(value: T)

  /** bytes.Compare(a, b) <= 0 */
  predicate Leq(a: Bytes, b: Bytes) {
    if a == [] then true
    else if b == [] then false
    else a[0] < b[0] || (a[0] == b[0] && Leq(a[1..], b[1..]))
  }

  predicate Less(a: Bytes, b: Bytes) {
    Leq(a, b) && a != b
  }

  lemma {:induction false} LeqReflexive(a: Bytes)
    ensures Leq(a, a)
  {
    if a != [] { LeqReflexive(a[1..]); }
  }

  lemma {:induction false} LeqTotal(a: Bytes, b: Bytes)
    ensures Leq(a, b) || Leq(b, a)
  {
    if a != [] && b != [] && a[0] == b[0] { LeqTotal(a[1..], b[1..]); }
  }

  lemma {:induction false} LeqAntisymmetric(a: Bytes, b: Bytes)
    requires Leq(a, b) && Leq(b, a)
    ensures a == b
  {
    if a != [] {
      LeqAntisymmetric(a[1..], b[1..]);
      assert a == [a[0]] + a[1..] && b == [b[0]] + b[1..];
    }
  }

  lemma {:induction false} LeqTransitive(a: Bytes, b: Bytes, c: Bytes)
    requires Leq(a, b) && Leq(b, c)
    ensures Leq(a, c)
  {
    if a != [] && a[0] == b[0] && b[0] == c[0] { LeqTransitive(a[1..], b[1..], c[1..]); }
  }

  /** Less is the strict form of Leq: exactly one of a < b and b <= a holds. */
  lemma LessIsNotGeq(a: Bytes, b: Bytes)
    ensures Less(a, b) <==> !Leq(b, a)
  {
    LeqTotal(a, b);
    if Leq(a, b) && Leq(b, a) { LeqAntisymmetric(a, b); }
    LeqReflexive(a);
  }

  lemma LessTransitive(a: Bytes, b: Bytes, c: Bytes)
    requires Leq(a, b) && Less(b, c)
    ensures Less(a, c)
  {
    LeqTransitive(a, b, c);
    if a == c { LeqAntisymmetric(a, b); }
  }

  /** The leading bytes two strings share. */
  function CommonPrefix(a: Bytes, b: Bytes): Bytes {
    if a == [] || b == [] || a[0] != b[0] then []
    else [a[0]] + CommonPrefix(a[1..], b[1..])
  }

  /** Whatever starts both strings starts their common prefix, and the other way round. */
  lemma {:induction false} CommonPrefixIsLongest(a: Bytes, b: Bytes, p: Bytes)
    ensures p <= CommonPrefix(a, b) <==> p <= a && p <= b
  {
    if a != [] && b != [] && p != [] && a[0] == b[0] {
      CommonPrefixIsLongest(a[1..], b[1..], p[1..]);
      assert p <= a <==> p[0] == a[0] && p[1..] <= a[1..];
      assert p <= b <==> p[0] == b[0] && p[1..] <= b[1..];
      var q := CommonPrefix(a, b);
      assert q[1..] == CommonPrefix(a[1..], b[1..]);
      assert p <= q <==> p[0] == q[0] && p[1..] <= q[1..];
    }
  }

  /** Everything between two strings starts with what the two share. */
  lemma {:induction false} BetweenSharesPrefix(a: Bytes, x: Bytes, b: Bytes)
    requires Leq(a, x) && Leq(x, b)
    ensures CommonPrefix(a, b) <= x
  {
    if a == [] || b == [] || a[0] != b[0] {
    } else {
      BetweenSharesPrefix(a[1..], x[1..], b[1..]);
    }
  }

  // ---- big-endian numbers ----

  function Pow256(n: nat): (p: nat)
    ensures p >= 1
  {
    if n == 0 then 1 else 256 * Pow256(n - 1)
  }

  lemma Pow256Values()
    ensures Pow256(4) == 0x1_0000_0000
    ensures Pow256(8) == 0x1_0000_0000_0000_0000
  {
    assert Pow256(2) == 65536;
    assert Pow256(4) == 0x1_0000_0000;
    assert Pow256(6) == 0x1_0000_0000_0000;
  }

  function BigEndian(v: nat, n: nat): (s: Bytes)
    ensures |s| == n
  {
    if n == 0 then [] else BigEndian(v / 256, n - 1) + [v % 256]
  }

  function FromBigEndian(s: Bytes): (v: nat)
  {
    if s == [] then 0 else 256 * FromBigEndian(s[..|s| - 1]) + s[|s| - 1]
  }

  lemma {:induction false} BigEndianRoundTrip(v: nat, n: nat)
    requires v < Pow256(n)
    ensures FromBigEndian(BigEndian(v, n)) == v
  {
    if n > 0 {
      BigEndianRoundTrip(v / 256, n - 1);
      assert BigEndian(v, n)[..n - 1] == BigEndian(v / 256, n - 1);
    }
  }

  /** Byte order on strings led by fixed-width big-endian numbers is numeric order, then the order of the tails. */
  lemma {:induction false} BigEndianOrder(v: nat, w: nat, n: nat, c: Bytes, d: Bytes)
    requires v < Pow256(n) && w < Pow256(n)
    ensures Leq(BigEndian(v, n) + c, BigEndian(w, n) + d) <==> v < w || (v == w && Leq(c, d))
  {
    if n == 0 {
      assert BigEndian(v, n) + c == c && BigEndian(w, n) + d == d;
    } else {
      var c', d' := [v % 256] + c, [w % 256] + d;
      BigEndianOrder(v / 256, w / 256, n - 1, c', d');
      assert BigEndian(v, n) + c == BigEndian(v / 256, n - 1) + c';
      assert BigEndian(w, n) + d == BigEndian(w / 256, n - 1) + d';
      assert c'[1..] == c && d'[1..] == d;
    }
  }
}

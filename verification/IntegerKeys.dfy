/** Integer keys: big-endian bytes, with the sign bit flipped for signed types. */
module IntegerKeys {
  import opened Bytes
  import opened Bits
  import W = WordMatch

  /** The bytes of an unsigned integer of `n` bytes, most significant first. */
  function BigEndian(v: nat, n: nat): (r: Key)
    ensures |r| == n
  {
    if n == 0 then [] else BigEndian(v / 256, n - 1) + [v % 256]
  }

  function FromBigEndian(key: Key): nat {
    if key == [] then 0 else 256 * FromBigEndian(key[..|key| - 1]) + key[|key| - 1]
  }

  predicate Fits(v: int, n: nat) {
    n > 0 && 0 <= v + Pow2(8 * n - 1) && v < Pow2(8 * n - 1)
  }

  /** The bit pattern of a signed integer in two's complement. */
  function Pattern(v: int, n: nat): nat
    requires Fits(v, n)
  {
    if v < 0 then v + 2 * Pow2(8 * n - 1) else v
  }

  /** The key of a signed integer of `n` bytes. */
  function FromSigned(v: int, n: nat): (r: Key)
    requires Fits(v, n)
    ensures |r| == n
  {
    BigEndian(Xor(Pattern(v, n), Pow2(8 * n - 1)), n)
  }

  /** Flipping the sign bit moves the range of the type up to start at zero. */
  lemma FlipSign(v: int, n: nat)
    requires Fits(v, n)
    ensures Xor(Pattern(v, n), Pow2(8 * n - 1)) == v + Pow2(8 * n - 1) < Pow2(8 * n)
  {
    hide Xor;
    var half := Pow2(8 * n - 1);
    var sign, low := if v < 0 then 1 else 0, if v < 0 then v + half else v;
    W.XorBits(low, sign, 0, 1, 8 * n - 1);
    assert half * sign == if v < 0 then half else 0;
    assert half * 1 == half;
    NoXor(low);
    FlipOne();
    assert half * Xor(sign, 1) == if v < 0 then 0 else half;
  }

  lemma {:induction false} NoXor(a: nat)
    ensures Xor(a, 0) == a
  {
    if a != 0 {
      NoXor(a / 2);
    }
  }

  lemma FlipOne()
    ensures Xor(0, 1) == 1 && Xor(1, 1) == 0
  {
  }

  lemma {:induction false} BigEndianRoundTrip(v: nat, n: nat)
    requires v < Pow2(8 * n)
    ensures FromBigEndian(BigEndian(v, n)) == v
  {
    if n > 0 {
      ByteUp(v, n);
      BigEndianRoundTrip(v / 256, n - 1);
      var key := BigEndian(v, n);
      assert key[..n - 1] == BigEndian(v / 256, n - 1);
    }
  }

  lemma ByteUp(v: nat, n: nat)
    requires n > 0 && v < Pow2(8 * n)
    ensures v / 256 < Pow2(8 * (n - 1))
  {
    var m := 8 * (n - 1);
    assert Pow2(m + 2) == 4 * Pow2(m);
    assert Pow2(m + 4) == 4 * Pow2(m + 2);
    assert Pow2(m + 6) == 4 * Pow2(m + 4);
    assert Pow2(m + 8) == 4 * Pow2(m + 6);
  }

  /** A last byte decides only between equal beginnings. */
  lemma {:induction false} LessAppend(a: Key, b: Key, x: Byte, y: Byte)
    requires |a| == |b|
    ensures Less(a + [x], b + [y]) <==> Less(a, b) || (a == b && x < y)
  {
    if a == [] {
    } else {
      assert (a + [x])[1..] == a[1..] + [x] && (b + [y])[1..] == b[1..] + [y];
      LessAppend(a[1..], b[1..], x, y);
      assert a == [a[0]] + a[1..] && b == [b[0]] + b[1..];
    }
  }

  /** The byte order of big-endian keys of one width is the numeric order. */
  lemma {:induction false} BigEndianOrder(v: nat, w: nat, n: nat)
    requires v < Pow2(8 * n) && w < Pow2(8 * n)
    ensures Less(BigEndian(v, n), BigEndian(w, n)) <==> v < w
    decreases n
  {
    if n > 0 {
      ByteUp(v, n);
      ByteUp(w, n);
      BigEndianOrder(v / 256, w / 256, n - 1);
      BigEndianOrder(w / 256, v / 256, n - 1);
      LessAppend(BigEndian(v / 256, n - 1), BigEndian(w / 256, n - 1), v % 256, w % 256);
      BigEndianRoundTrip(v / 256, n - 1);
      BigEndianRoundTrip(w / 256, n - 1);
    }
  }

  /** For every width, signed keys are ordered like the integers they come from. */
  lemma SignedOrder(v: int, w: int, n: nat)
    requires Fits(v, n) && Fits(w, n)
    ensures Less(FromSigned(v, n), FromSigned(w, n)) <==> v < w
  {
    FlipSign(v, n);
    FlipSign(w, n);
    BigEndianOrder(v + Pow2(8 * n - 1), w + Pow2(8 * n - 1), n);
  }

  lemma SignedRoundTrip(v: int, n: nat)
    requires Fits(v, n)
    ensures FromBigEndian(FromSigned(v, n)) - Pow2(8 * n - 1) == v
  {
    FlipSign(v, n);
    BigEndianRoundTrip(v + Pow2(8 * n - 1), n);
  }
}

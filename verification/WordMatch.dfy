/**
 The common prefix length of two byte slices, eight bytes at a time: the words of both
 slices are compared by XOR, and the number of trailing zero bits of a difference tells
 the first byte that differs. This takes the first byte as the lowest of its word, as a
 little-endian load does.
 */
module WordMatch {
  import opened Bytes
  import opened Bits

  /** The number whose lowest byte is the first one. */
  function LittleEndian(bytes: seq<Byte>): nat {
    if bytes == [] then 0 else bytes[0] + 256 * LittleEndian(bytes[1..])
  }

  /** XOR works byte by byte. */
  lemma {:induction false} XorBits(low: nat, high: nat, low': nat, high': nat, n: nat)
    requires low < Pow2(n) && low' < Pow2(n)
    ensures Xor(low + Pow2(n) * high, low' + Pow2(n) * high') == Xor(low, low') + Pow2(n) * Xor(high, high')
  {
    hide Xor;
    if n == 0 {
      XorZero(0, 0);
    } else {
      XorBits(low / 2, high, low' / 2, high', n - 1);
      XorShifted(low, Pow2(n - 1) * high, low', Pow2(n - 1) * high', Pow2(n - 1) * Xor(high, high'));
      Doubled(Pow2(n - 1), high);
      Doubled(Pow2(n - 1), high');
      Doubled(Pow2(n - 1), Xor(high, high'));
    }
  }

  lemma {:induction false} XorBound(a: nat, b: nat, n: nat)
    requires a < Pow2(n) && b < Pow2(n)
    ensures Xor(a, b) < Pow2(n)
  {
    if a != 0 {
      XorBound(a / 2, b / 2, n - 1);
    }
  }

  lemma XorShifted(low: nat, u: nat, low': nat, u': nat, x: nat)
    requires Xor(low / 2 + u, low' / 2 + u') == Xor(low / 2, low' / 2) + x
    ensures Xor(low + 2 * u, low' + 2 * u') == Xor(low, low') + 2 * x
  {
    hide Xor;
    XorStep(low + 2 * u, low' + 2 * u');
    XorStep(low, low');
  }

  lemma Halved(low: nat, half: nat, high: nat)
    ensures low + 2 * half * high == 2 * (half * high) + low
    ensures (low + 2 * half * high) / 2 == low / 2 + half * high
    ensures (low + 2 * half * high) % 2 == low % 2
  {
    assert 2 * half * high == 2 * (half * high);
  }

  lemma Doubled(half: nat, high: nat)
    ensures 2 * half * high == 2 * (half * high)
  {
  }

  lemma {:induction false} XorStep(a: nat, b: nat)
    ensures Xor(a, b) == 2 * Xor(a / 2, b / 2) + (if a % 2 != b % 2 then 1 else 0)
  {
  }

  lemma {:induction false} XorZero(a: nat, b: nat)
    ensures Xor(a, b) == 0 <==> a == b
  {
    if a != 0 {
      XorZero(a / 2, b / 2);
    }
  }

  /** Trailing zeros of a number put together from a low part of `n` bits and a high part. */
  lemma {:induction false} LowestPart(low: nat, high: nat, n: nat)
    requires low < Pow2(n) && low + Pow2(n) * high > 0
    ensures low > 0 ==> TrailingZeros(low + Pow2(n) * high) == TrailingZeros(low) < n
    ensures low == 0 ==> high > 0 && TrailingZeros(low + Pow2(n) * high) == n + TrailingZeros(high)
  {
    if n == 0 {
    } else {
      var half := Pow2(n - 1);
      Halved(low, half, high);
      if low % 2 == 0 {
        LowestPart(low / 2, high, n - 1);
      }
    }
  }

  lemma PowEight()
    ensures Pow2(8) == 256
  {
    assert Pow2(4) == 16;
  }

  /** The first differing byte of two words is the trailing zero count by eight. */
  lemma {:induction false} FirstDifference(a: seq<Byte>, b: seq<Byte>)
    requires |a| == |b|
    ensures Xor(LittleEndian(a), LittleEndian(b)) == 0 ==> a == b
    ensures Xor(LittleEndian(a), LittleEndian(b)) > 0 ==>
              TrailingZeros(Xor(LittleEndian(a), LittleEndian(b))) / 8 == CommonPrefix(a, b) < |a|
  {
    hide Xor, Pow2, TrailingZeros, Bit;
    XorZero(0, 0);
    if a == [] {
      return;
    } else {
      var rest := Xor(LittleEndian(a[1..]), LittleEndian(b[1..]));
      var first := Xor(a[0], b[0]);
      PowEight();
      XorBits(a[0], LittleEndian(a[1..]), b[0], LittleEndian(b[1..]), 8);
      XorBound(a[0], b[0], 8);
      XorZero(a[0], b[0]);
      FirstDifference(a[1..], b[1..]);
      if first + 256 * rest > 0 {
        LowestPart(first, rest, 8);
      } else {
        assert a == [a[0]] + a[1..] && b == [b[0]] + b[1..];
      }
    }
  }

  method PrefixLengthBytes(lhs: seq<Byte>, rhs: seq<Byte>) returns (r: nat)
    ensures r == CommonPrefix(lhs, rhs)
  {
    hide Xor, LittleEndian, TrailingZeros, CommonPrefix;
    var len := if |lhs| <= |rhs| then |lhs| else |rhs|;
    var idx: nat := 0;
    while idx + 8 <= len
      invariant idx <= len
      invariant lhs[..idx] == rhs[..idx]
    {
      var left, right := lhs[idx..idx + 8], rhs[idx..idx + 8];
      var diff := Xor(LittleEndian(left), LittleEndian(right));
      FirstDifference(left, right);
      if diff != 0 {
        Stitch(lhs, rhs, idx, 8);
        return idx + TrailingZeros(diff) / 8;
      }
      assert lhs[..idx + 8] == lhs[..idx] + left && rhs[..idx + 8] == rhs[..idx] + right;
      idx := idx + 8;
    }
    while idx < len
      invariant idx <= len
      invariant lhs[..idx] == rhs[..idx]
    {
      if lhs[idx] != rhs[idx] {
        break;
      }
      assert lhs[..idx + 1] == lhs[..idx] + [lhs[idx]] && rhs[..idx + 1] == rhs[..idx] + [rhs[idx]];
      idx := idx + 1;
    }
    CommonPrefixUnique(lhs, rhs, idx);
    r := idx;
  }

  /** A difference inside a stretch after equal bytes ends the common prefix. */
  lemma Stitch(a: Key, b: Key, at: nat, n: nat)
    requires at + n <= |a| && at + n <= |b| && a[..at] == b[..at]
    requires CommonPrefix(a[at..at + n], b[at..at + n]) < n
    ensures CommonPrefix(a, b) == at + CommonPrefix(a[at..at + n], b[at..at + n])
  {
    var s, t := a[at..at + n], b[at..at + n];
    var m := CommonPrefix(s, t);
    assert a[..at + m] == a[..at] + s[..m] && b[..at + m] == b[..at] + t[..m];
    assert a[at + m] == s[m] && b[at + m] == t[m];
    CommonPrefixUnique(a, b, at + m);
  }
}

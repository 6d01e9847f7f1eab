// Bytes, fixed-width integers and C strings, as the C sources lay them out in memory.
module Bytes {

  type byte = x: int | 0 <= x < 256

  type bytes = seq<byte>

  datatype Option<+T> = None | Some(value: T)

  const TWO31: nat := 0x8000_0000
  const TWO32: nat := 0x1_0000_0000
  const TWO64: nat := 0x1_0000_0000_0000_0000

  // ---------------------------------------------------------------- integers

  function Pow256(w: nat): nat
  {
    if w == 0 then 1 else 256 * Pow256(w - 1)
  }

  lemma {:induction false} Pow256Values()
    ensures Pow256(1) == 256 && Pow256(2) == 0x1_0000
    ensures Pow256(4) == TWO32 && Pow256(8) == TWO64
  {
    assert Pow256(2) == 256 * Pow256(1);
    assert Pow256(4) == 256 * Pow256(3) == 256 * (256 * Pow256(2));
    assert Pow256(8) == 256 * (256 * Pow256(6)) == 256 * (256 * (256 * (256 * Pow256(4))));
  }

  /** The `w` low bytes of `n`, least significant first (native order of the target). */
  function Le(n: nat, w: nat): (b: bytes)
    ensures |b| == w
  {
    if w == 0 then [] else [n % 256] + Le(n / 256, w - 1)
  }

  function UnLe(b: bytes): nat
  {
    if |b| == 0 then 0 else b[0] + 256 * UnLe(b[1..])
  }

  lemma {:induction false} LeRoundTrip(n: nat, w: nat)
    requires n < Pow256(w)
    ensures UnLe(Le(n, w)) == n
  {
    if w > 0 {
      LeRoundTrip(n / 256, w - 1);
      assert Le(n, w)[1..] == Le(n / 256, w - 1);
    }
  }

  /** The `w` low bytes of `n`, most significant first (network order, as in CBOR). */
  function Be(n: nat, w: nat): (b: bytes)
    ensures |b| == w
  {
    if w == 0 then [] else Be(n / 256, w - 1) + [n % 256]
  }

  function UnBe(b: bytes): nat
  {
    if |b| == 0 then 0 else UnBe(b[..|b| - 1]) * 256 + b[|b| - 1]
  }

  lemma {:induction false} BeRoundTrip(n: nat, w: nat)
    requires n < Pow256(w)
    ensures UnBe(Be(n, w)) == n
  {
    if w > 0 {
      BeRoundTrip(n / 256, w - 1);
      assert Be(n, w)[..w - 1] == Be(n / 256, w - 1);
    }
  }

  /** A C `int` stored in, or read from, a 32-bit word. */
  function IntWord(n: int): (u: nat)
    ensures u < TWO32 && exists k: int :: n == u + k * TWO32
  {
    assert n == n % TWO32 + (n / TWO32) * TWO32;
    n % TWO32
  }

  function WordInt(u: nat): (n: int)
    ensures -0x8000_0000 <= n < TWO31 && IntWord(n) == u % TWO32
  {
    var v := u % TWO32;
    if v < TWO31 then v else v - TWO32
  }

  /** Native order, least significant byte first. */
  lemma {:induction false} NativeOrder(b: bytes)
    requires |b| == 4
    ensures var x0: int, x1: int, x2: int, x3: int := b[0], b[1], b[2], b[3];
      UnLe(b) == x0 + 0x100 * x1 + 0x1_0000 * x2 + 0x100_0000 * x3
  {
    assert b[1..][1..] == b[2..] && b[2..][1..] == b[3..] && b[3..][1..] == [];
    assert UnLe(b[3..]) == b[3];
    assert UnLe(b[2..]) == b[2] + 256 * UnLe(b[3..]);
    assert UnLe(b[1..]) == b[1] + 256 * UnLe(b[2..]);
  }

  /** Network order, most significant byte first. */
  lemma {:induction false} NetworkOrder(b: bytes)
    requires |b| == 4
    ensures var x0: int, x1: int, x2: int, x3: int := b[0], b[1], b[2], b[3];
      UnBe(b) == 0x100_0000 * x0 + 0x1_0000 * x1 + 0x100 * x2 + x3
  {
    assert b[..3][..2] == b[..2] && b[..2][..1] == b[..1] && b[..1][..0] == [];
    assert UnBe(b[..1]) == b[0];
    assert UnBe(b[..2]) == UnBe(b[..1]) * 256 + b[1];
    assert UnBe(b[..3]) == UnBe(b[..2]) * 256 + b[2];
  }

  // ----------------------------------------------------------------- strings

  predicate NulFree(s: bytes) { forall i :: 0 <= i < |s| ==> s[i] != 0 }

  /** The bytes of a C string literal. */
  function Ascii(s: string): (b: bytes)
    requires forall i :: 0 <= i < |s| ==> 0 < s[i] as int < 128
    ensures |b| == |s| && NulFree(b) && forall i :: 0 <= i < |s| ==> b[i] == s[i] as int
  {
    seq(|s|, i requires 0 <= i < |s| => s[i] as int)
  }

  type cstring = s: bytes | NulFree(s) witness []

  /** The C string starting at `pool + off`: the bytes before the first NUL;
      None when no NUL follows inside the pool. */
  function StrAt(pool: bytes, off: nat): (r: Option<cstring>)
    ensures r.Some? ==> off + |r.value| < |pool| && pool[off..off + |r.value| + 1] == r.value + [0]
    decreases |pool| - off
  {
    if off >= |pool| then None
    else if pool[off] == 0 then Some([])
    else match StrAt(pool, off + 1)
      case Some(s) =>
        assert pool[off..off + |s| + 2] == [pool[off]] + pool[off + 1..off + 1 + |s| + 1];
        Some([pool[off]] + s)
      case None => None
  }

  /** `piece` lies in `pool` at `off`. */
  ghost predicate Holds(pool: bytes, off: nat, piece: bytes)
  {
    off + |piece| <= |pool| && forall k {:trigger piece[k]} :: 0 <= k < |piece| ==> pool[off + k] == piece[k]
  }

  lemma {:induction false} HoldsPart(pool: bytes, off: nat, piece: bytes, at: nat, part: bytes)
    requires Holds(pool, off, piece) && Holds(piece, at, part)
    ensures Holds(pool, off + at, part)
  {
    forall k | 0 <= k < |part| ensures pool[off + at + k] == part[k] {
      assert part[k] == piece[at + k];
    }
  }

  lemma {:induction false} StrAtFinds(pool: bytes, off: nat, s: cstring)
    requires Holds(pool, off, s + [0])
    ensures StrAt(pool, off) == Some(s)
    decreases |s|
  {
    assert pool[off] == (s + [0])[0];
    if s != [] {
      forall k | 0 <= k < |s| ensures pool[off + 1 + k] == (s[1..] + [0])[k] {
        assert (s + [0])[k + 1] == (s[1..] + [0])[k];
      }
      StrAtFinds(pool, off + 1, s[1..]);
      assert [s[0]] + s[1..] == s;
    }
  }

  // ------------------------------------------------------------ bitwise "or"

  /** C's `|` on non-negative integers. */
  function BitOr(a: nat, b: nat): nat
  {
    if a == 0 then b else if b == 0 then a
    else (if a % 2 == 1 || b % 2 == 1 then 1 else 0) + 2 * BitOr(a / 2, b / 2)
  }

  function Pow2(k: nat): nat { if k == 0 then 1 else 2 * Pow2(k - 1) }

  function Shl(h: nat, k: nat): nat { if k == 0 then h else 2 * Shl(h, k - 1) }

  /** Or-ing a value into low bits that are still clear adds it. */
  lemma {:induction false} BitOrDisjoint(h: nat, l: nat, k: nat)
    requires l < Pow2(k)
    ensures BitOr(Shl(h, k), l) == Shl(h, k) + l
  {
    if k > 0 {
      var m := Shl(h, k - 1);
      BitOrDisjoint(h, l / 2, k - 1);
      BitOrDouble(m, l / 2, l % 2);
      assert l == 2 * (l / 2) + l % 2;
    }
  }

  lemma {:induction false} BitOrDouble(a: nat, b: nat, c: nat)
    requires c < 2
    ensures BitOr(2 * a, 2 * b + c) == 2 * BitOr(a, b) + c
  {
    if a > 0 && 2 * b + c > 0 {
      assert (2 * a) / 2 == a && (2 * a) % 2 == 0;
      assert (2 * b + c) / 2 == b && (2 * b + c) % 2 == c;
    }
  }

  lemma {:induction false} BitOrBound(a: nat, b: nat, k: nat)
    requires a < Pow2(k) && b < Pow2(k)
    ensures BitOr(a, b) < Pow2(k)
  {
    if k > 0 && a > 0 && b > 0 { BitOrBound(a / 2, b / 2, k - 1); }
  }

  lemma {:induction false} BitOrHalves(a: nat, b: nat)
    requires a > 0 && b > 0
    ensures BitOr(a, b) / 2 == BitOr(a / 2, b / 2)
    ensures BitOr(a, b) % 2 == 1 <==> a % 2 == 1 || b % 2 == 1
  {
    var low := if a % 2 == 1 || b % 2 == 1 then 1 else 0;
    var high := BitOr(a / 2, b / 2);
    assert BitOr(a, b) == low + 2 * high;
  }

  /** `|` on bytes. */
  function Or8(a: byte, b: byte): byte
  {
    BitOrBound(a, b, 8);
    Pow2Values();
    BitOr(a, b)
  }

  lemma {:induction false} Pow2Values()
    ensures Pow2(2) == 4 && Pow2(4) == 16 && Pow2(6) == 64 && Pow2(8) == 256
  {
    assert Pow2(4) == 2 * Pow2(3) == 4 * Pow2(2);
    assert Pow2(6) == 2 * Pow2(5) == 4 * Pow2(4);
    assert Pow2(8) == 2 * Pow2(7) == 4 * Pow2(6);
  }

  predicate Bit(n: nat, i: nat) { if i == 0 then n % 2 == 1 else Bit(n / 2, i - 1) }

  lemma {:induction false} BitOfOr(a: nat, b: nat, i: nat)
    ensures Bit(BitOr(a, b), i) <==> Bit(a, i) || Bit(b, i)
  {
    if a == 0 || b == 0 {
      BitOfZero(i);
    } else {
      BitOrHalves(a, b);
      if i > 0 { BitOfOr(a / 2, b / 2, i - 1); }
    }
  }

  lemma {:induction false} BitOfZero(i: nat)
    ensures !Bit(0, i)
  {
    if i > 0 { BitOfZero(i - 1); }
  }

  lemma {:induction false} BitOfPow2(k: nat, i: nat)
    ensures Bit(Pow2(k), i) <==> i == k
  {
    if k == 0 { if i > 0 { BitOfZero(i - 1); assert Pow2(0) / 2 == 0; } }
    else if i > 0 { BitOfPow2(k - 1, i - 1); assert Pow2(k) / 2 == Pow2(k - 1); }
  }

  /** Two k-bit numbers with the same bits are equal. */
  lemma {:induction false} BitsDetermine(a: nat, b: nat, k: nat)
    requires a < Pow2(k) && b < Pow2(k)
    requires forall i :: 0 <= i < k ==> (Bit(a, i) <==> Bit(b, i))
    ensures a == b
  {
    if k > 0 {
      assert Bit(a, 0) <==> Bit(b, 0);
      forall i | 0 <= i < k - 1 ensures Bit(a / 2, i) <==> Bit(b / 2, i) {
        assert Bit(a, i + 1) <==> Bit(b, i + 1);
      }
      BitsDetermine(a / 2, b / 2, k - 1);
    }
  }
}

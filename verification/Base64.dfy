// The hand-written Base64 decoder (raw_base64_decode) and the encoding of section 4 of RFC 4648.
module Base64 {
  import opened Bytes

  const PAD: byte := 61

  type sextet = x: int | 0 <= x < 64

  /** The Base 64 alphabet: A-Z, a-z, 0-9, '+', '/'. */
  function Alphabet(x: sextet): (c: byte)
    ensures c != 0 && c != PAD && RevTable(c) == x
  {
    if x < 26 then x + 65 else if x < 52 then x + 71 else if x < 62 then x - 4 else if x == 62 then 43 else 47
  }

  /** b64revtb: NUL is -3, '=' is -2, bytes outside the alphabet are -1. */
  function RevTable(c: byte): (x: int)
    ensures -3 <= x < 64
  {
    if c == 0 then -3
    else if c == PAD then -2
    else if 65 <= c <= 90 then c - 65
    else if 97 <= c <= 122 then c - 71
    else if 48 <= c <= 57 then c + 4
    else if c == 43 then 62
    else if c == 47 then 63
    else -1
  }

  function Quad(a: byte, b: byte, c: byte): (q: bytes)
    ensures |q| == 4
  {
    [Alphabet(a / 4), Alphabet((a % 4) * 16 + b / 16), Alphabet((b % 16) * 4 + c / 64), Alphabet(c % 64)]
  }

  /** Section 4 of RFC 4648. */
  function Encode(d: bytes): (s: bytes)
    ensures |s| % 4 == 0 && (d != [] ==> s != [])
  {
    if |d| == 0 then []
    else if |d| == 1 then [Alphabet(d[0] / 4), Alphabet((d[0] % 4) * 16), PAD, PAD]
    else if |d| == 2 then [Alphabet(d[0] / 4), Alphabet((d[0] % 4) * 16 + d[1] / 16), Alphabet((d[1] % 16) * 4), PAD]
    else Quad(d[0], d[1], d[2]) + Encode(d[3..])
  }

  // -------------------------------------------------------------- decoder

  datatype Buf = Buf(b0: byte, b1: byte, b2: byte)

  /** Bytes written, returned count, error code (1 malformed, 2 foreign byte in strict mode). */
  datatype Outcome = Outcome(out: bytes, result: nat, err: int)

  /** The buffer after the sextet `x` arrives at position `pos` of a group. */
  function Feed(b: Buf, pos: nat, x: sextet): Buf
    requires pos < 4
  {
    if pos == 0 then b.(b0 := (x * 4) % 256)
    else if pos == 1 then b.(b0 := Or8(b.b0, x / 16), b1 := (x * 16) % 256)
    else if pos == 2 then b.(b1 := Or8(b.b1, x / 4), b2 := (x * 64) % 256)
    else b.(b2 := Or8(b.b2, x))
  }

  /** What the decoder still does from position `p` of the NUL-terminated string `s[..n]`. */
  function Decode(s: bytes, n: nat, p: nat, b: Buf, strict: bool): Outcome
    requires p <= n < |s| && s[n] == 0
    decreases n - p
  {
    var x, pos := RevTable(s[p]), p % 4;
    if x == -3 then Outcome([], 0, if pos == 0 then 0 else 1)
    else if x == -2 then
      if pos < 2 then Outcome([], 0, 1)
      else if pos == 2 then (if s[p + 1] != PAD then Outcome([], 0, 1) else Outcome([b.b0], 1, 0))
      else Outcome([b.b0, b.b1], 2, 0)
    else if x == -1 then
      if strict then Outcome([], 0, 2) else Decode(s, n, p + 1, b, strict)
    else
      var b' := Feed(b, pos, x);
      var rest := Decode(s, n, p + 1, b', strict);
      if pos == 3 then Outcome([b'.b0, b'.b1, b'.b2] + rest.out, 3 + rest.result, rest.err) else rest
  }

  const CLEARED: Buf := Buf(0, 0, 0)

  /** On every input, valid or not, strict or not, the count is the number of bytes written, and a
      group of four characters yields at most three. */
  lemma {:induction false} DecodeAccounting(s: bytes, n: nat, p: nat, b: Buf, strict: bool)
    requires p <= n < |s| && s[n] == 0
    ensures var o := Decode(s, n, p, b, strict);
      o.result == |o.out| && |o.out| <= 3 * (n / 4 - p / 4)
    decreases n - p
  {
    var x, pos := RevTable(s[p]), p % 4;
    if x == -3 {
    } else if x == -2 {
      if pos == 2 && s[p + 1] == PAD { assert n >= p + 2; }
    } else if x == -1 {
      if !strict { DecodeAccounting(s, n, p + 1, b, strict); }
    } else {
      DecodeAccounting(s, n, p + 1, Feed(b, pos, x), strict);
    }
  }

  /** raw_base64_decode */
  method RawBase64Decode(inp: array<byte>, ghost n: nat, out: array<byte>, strict: bool)
    returns (result: nat, err: int)
    requires n < inp.Length && inp[n] == 0 && inp != out
    requires |Decode(inp[..], n, 0, CLEARED, strict).out| <= out.Length
    modifies out
    ensures result == |Decode(inp[..], n, 0, CLEARED, strict).out|
    ensures out[..result] == Decode(inp[..], n, 0, CLEARED, strict).out
    ensures err == Decode(inp[..], n, 0, CLEARED, strict).err
    ensures forall k :: result <= k < out.Length ==> out[k] == old(out[k])
    ensures result <= 3 * (n / 4)
  {
    ghost var s := inp[..];
    ghost var all := Decode(s, n, 0, CLEARED, strict);
    DecodeAccounting(s, n, 0, CLEARED, strict);
    var buf, p, pad, o := CLEARED, 0, 0, 0;
    result, err := 0, 0;
    while pad == 0
      invariant o <= |all.out| <= out.Length && err == 0 && s == inp[..]
      invariant 0 <= pad <= 2 && result == o + (if pad == 0 then 0 else 3 - pad)
      invariant pad == 0 ==> p <= n && Leads(all, out[..o], Decode(s, n, p, buf, strict))
      invariant pad != 0 ==> all == Outcome(out[..o] + [buf.b0, buf.b1][..3 - pad], result, 0)
      invariant forall k :: o <= k < out.Length ==> out[k] == old(out[k])
      decreases pad == 0, n - p
    {
      hide Or8, RevTable;
      var x := RevTable(inp[p]);
      var pos := p % 4;
      p := p + 1;
      if x == -3 {
        if pos != 0 { err := 1; }
        return;
      } else if x == -2 {
        if pos < 2 {
          err := 1;
          return;
        } else if pos == 2 {
          if inp[p] != PAD {
            err := 1;
            return;
          }
          buf := buf.(b2 := 0);
          pad := 2;
          result := result + 1;
          assert [buf.b0, buf.b1][..1] == [buf.b0];
        } else {
          pad := 1;
          result := result + 2;
          assert [buf.b0, buf.b1][..2] == [buf.b0, buf.b1];
        }
      } else if x == -1 {
        if strict {
          err := 2;
          return;
        }
      } else {
        ghost var fed := Feed(buf, pos, x);
        if pos == 0 {
          buf := buf.(b0 := (x * 4) % 256);
        } else if pos == 1 {
          buf := buf.(b0 := Or8(buf.b0, x / 16));
          buf := buf.(b1 := (x * 16) % 256);
        } else if pos == 2 {
          buf := buf.(b1 := Or8(buf.b1, x / 4));
          buf := buf.(b2 := (x * 64) % 256);
        } else {
          buf := buf.(b2 := Or8(buf.b2, x));
          result := result + 3;
          o := WriteGroup(out, o, buf, all, Decode(s, n, p, buf, strict));
        }
        assert buf == fed;
      }
    }
    ghost var was, last := out[..o], [buf.b0, buf.b1][..3 - pad];
    out[o] := buf.b0;
    if pad == 1 { out[o + 1] := buf.b1; }
    assert out[..result] == was + last;
  }

  /** With `written` out, `rest` is what is left of `all`. */
  ghost predicate Leads(all: Outcome, written: bytes, rest: Outcome)
  {
    all.out == written + rest.out && all.result == |written| + rest.result && all.err == rest.err
  }

  method WriteGroup(out: array<byte>, o: nat, buf: Buf, ghost all: Outcome, ghost rest: Outcome) returns (o': nat)
    requires o <= |all.out| <= out.Length
    requires Leads(all, out[..o], Outcome([buf.b0, buf.b1, buf.b2] + rest.out, 3 + rest.result, rest.err))
    modifies out
    ensures o' == o + 3 <= |all.out| && Leads(all, out[..o'], rest)
    ensures forall k :: o' <= k < out.Length ==> out[k] == old(out[k])
  {
    ghost var was, group := out[..o], [buf.b0, buf.b1, buf.b2];
    assert |all.out| == o + (3 + |rest.out|);
    out[o], out[o + 1], out[o + 2] := buf.b0, buf.b1, buf.b2;
    o' := o + 3;
    assert out[..o'] == was + group;
    assert was + group + rest.out == was + (group + rest.out);
  }

  // ----------------------------------------------------------- round trip

  /** The three bytes of a group of four sextets. */
  function Join(x0: sextet, x1: sextet, x2: sextet, x3: sextet): Buf
  {
    Buf(x0 * 4 + x1 / 16, (x1 % 16) * 16 + x2 / 4, (x2 % 4) * 64 + x3)
  }

  lemma {:induction false} FeedGroup(b: Buf, x0: sextet, x1: sextet, x2: sextet, x3: sextet)
    ensures var j := Join(x0, x1, x2, x3);
      var b1 := Feed(Feed(b, 0, x0), 1, x1);
      var b2 := Feed(b1, 2, x2);
      b1.b0 == b2.b0 == j.b0 && b2.b1 == j.b1 && Feed(b2, 3, x3) == j
  {
    Pow2Values();
    hide Or8;
    OrLow(x0 * 4, x0, x1 / 16, 2);
    assert (x1 * 16) % 256 == (x1 % 16) * 16;
    OrLow((x1 % 16) * 16, x1 % 16, x2 / 4, 4);
    assert (x2 * 64) % 256 == (x2 % 4) * 64;
    OrLow((x2 % 4) * 64, x2 % 4, x3, 6);
  }

  lemma {:induction false} OrLow(a: byte, h: nat, l: byte, k: nat)
    requires k == 2 || k == 4 || k == 6
    requires a == (if k == 2 then 4 * h else if k == 4 then 16 * h else 64 * h) && l < Pow2(k)
    ensures Or8(a, l) == a + l
  {
    BitOrDisjoint(h, l, k);
    assert Shl(h, 2) == 2 * Shl(h, 1) == 4 * h;
    assert Shl(h, 4) == 2 * Shl(h, 3) == 4 * Shl(h, 2);
    assert Shl(h, 6) == 2 * Shl(h, 5) == 4 * Shl(h, 4);
  }

  /** One alphabet character. */
  lemma {:induction false} DecodeChar(s: bytes, n: nat, p: nat, b: Buf, strict: bool, x: sextet)
    requires p < n < |s| && s[n] == 0 && s[p] == Alphabet(x)
    ensures var rest := Decode(s, n, p + 1, Feed(b, p % 4, x), strict);
      Decode(s, n, p, b, strict) ==
        if p % 4 == 3 then
          var b' := Feed(b, 3, x);
          Outcome([b'.b0, b'.b1, b'.b2] + rest.out, 3 + rest.result, rest.err)
        else rest
  {}

  lemma {:induction false} DecodeQuad(s: bytes, n: nat, p: nat, b: Buf, strict: bool,
                                      x0: sextet, x1: sextet, x2: sextet, x3: sextet)
    requires p + 4 <= n < |s| && s[n] == 0 && p % 4 == 0
    requires s[p] == Alphabet(x0) && s[p + 1] == Alphabet(x1) && s[p + 2] == Alphabet(x2) && s[p + 3] == Alphabet(x3)
    ensures var b' := Join(x0, x1, x2, x3);
      var rest := Decode(s, n, p + 4, b', strict);
      Decode(s, n, p, b, strict) == Outcome([b'.b0, b'.b1, b'.b2] + rest.out, 3 + rest.result, rest.err)
  {
    hide Decode, Feed, Alphabet, Join;
    FeedGroup(b, x0, x1, x2, x3);
    DecodeChar(s, n, p, b, strict, x0);
    var c1 := Feed(b, 0, x0);
    DecodeChar(s, n, p + 1, c1, strict, x1);
    var c2 := Feed(c1, 1, x1);
    DecodeChar(s, n, p + 2, c2, strict, x2);
    var c3 := Feed(c2, 2, x2);
    DecodeChar(s, n, p + 3, c3, strict, x3);
  }

  lemma {:induction false} EncodeQuad(d: bytes)
    ensures |d| == 0 ==> Encode(d) == []
    ensures |d| >= 3 ==> Encode(d) == Quad(d[0], d[1], d[2]) + Encode(d[3..])
  {}

  lemma {:induction false} DecodeEnd(s: bytes, n: nat, b: Buf, strict: bool)
    requires n < |s| && s[n] == 0 && n % 4 == 0
    ensures Decode(s, n, n, b, strict) == Outcome([], 0, 0)
  {}

  /** The decoder inverts the encoding, wherever a group starts and whatever the buffer held. */
  lemma {:induction false} DecodeInvertsEncode(d: bytes, s: bytes, p: nat, b: Buf, strict: bool)
    requires p % 4 == 0 && Holds(s, p, Encode(d))
    requires p + |Encode(d)| < |s| && s[p + |Encode(d)|] == 0
    ensures Decode(s, p + |Encode(d)|, p, b, strict) == Outcome(d, |d|, 0)
    decreases |d|
  {
    hide Decode, Encode, Feed, Join, Alphabet;
    EncodeQuad(d);
    var n, e := p + |Encode(d)|, Encode(d);
    if |d| == 0 {
      DecodeEnd(s, n, b, strict);
    } else if |d| < 3 {
      EncodeTail(d);
      DecodeTail(d, s, p, b, strict);
    } else {
      var q, rest := Quad(d[0], d[1], d[2]), Encode(d[3..]);
      assert e[0] == q[0] && e[1] == q[1] && e[2] == q[2] && e[3] == q[3];
      assert s[p] == q[0] && s[p + 1] == q[1] && s[p + 2] == q[2] && s[p + 3] == q[3];
      forall k | 0 <= k < |rest| ensures s[p + 4 + k] == rest[k] { assert e[4 + k] == rest[k]; }
      QuadBack(d[0], d[1], d[2]);
      var x0, x1, x2, x3 := d[0] / 4, (d[0] % 4) * 16 + d[1] / 16, (d[1] % 16) * 4 + d[2] / 64, d[2] % 64;
      DecodeQuad(s, n, p, b, strict, x0, x1, x2, x3);
      DecodeInvertsEncode(d[3..], s, p + 4, Buf(d[0], d[1], d[2]), strict);
      assert [d[0], d[1], d[2]] + d[3..] == d;
    }
  }

  lemma {:induction false} QuadBack(a: byte, b: byte, c: byte)
    ensures Join(a / 4, (a % 4) * 16 + b / 16, (b % 16) * 4 + c / 64, c % 64) == Buf(a, b, c)
  {
    var x1, x2 := (a % 4) * 16 + b / 16, (b % 16) * 4 + c / 64;
    assert x1 / 16 == a % 4 && x1 % 16 == b / 16;
    assert x2 / 4 == b % 16 && x2 % 4 == c / 64;
  }

  lemma {:induction false} DecodePad(s: bytes, n: nat, p: nat, b: Buf, strict: bool)
    requires p < n < |s| && s[n] == 0 && s[p] == PAD
    ensures p % 4 == 3 ==> Decode(s, n, p, b, strict) == Outcome([b.b0, b.b1], 2, 0)
    ensures p % 4 == 2 && s[p + 1] == PAD ==> Decode(s, n, p, b, strict) == Outcome([b.b0], 1, 0)
  {}

  lemma {:induction false} EncodeTail(d: bytes)
    requires 1 <= |d| <= 2
    ensures var second := if |d| == 1 then 0 else d[1];
      Encode(d) == [Alphabet(d[0] / 4), Alphabet((d[0] % 4) * 16 + second / 16),
                    if |d| == 1 then PAD else Alphabet((second % 16) * 4), PAD]
  {}

  lemma {:induction false} DecodeTail(d: bytes, s: bytes, p: nat, b: Buf, strict: bool)
    requires 1 <= |d| <= 2 && p % 4 == 0 && Holds(s, p, Encode(d))
    requires p + 4 < |s| && s[p + 4] == 0
    ensures |Encode(d)| == 4 && Decode(s, p + 4, p, b, strict) == Outcome(d, |d|, 0)
  {
    hide Decode, Feed, Encode, Alphabet, Join;
    EncodeTail(d);
    var e := Encode(d);
    assert s[p] == e[0] && s[p + 1] == e[1] && s[p + 2] == e[2] && s[p + 3] == e[3];
    var second := if |d| == 1 then 0 else d[1];
    QuadBack(d[0], second, 0);
    var x0, x1, x2 := d[0] / 4, (d[0] % 4) * 16 + second / 16, (second % 16) * 4;
    FeedGroup(b, x0, x1, x2, 0);
    DecodeChar(s, p + 4, p, b, strict, x0);
    var c1 := Feed(b, 0, x0);
    DecodeChar(s, p + 4, p + 1, c1, strict, x1);
    var c2 := Feed(c1, 1, x1);
    if |d| == 1 {
      DecodePad(s, p + 4, p + 2, c2, strict);
      assert d == [d[0]];
    } else {
      DecodeChar(s, p + 4, p + 2, c2, strict, x2);
      DecodePad(s, p + 4, p + 3, Feed(c2, 2, x2), strict);
      assert d == [d[0], d[1]];
    }
  }

  // ------------------------------------------- the alphabet, and bad text

  lemma {:induction false} AlphabetExact(x: sextet)
    ensures x < 26 ==> Alphabet(x) == 'A' as int + x
    ensures 26 <= x < 52 ==> Alphabet(x) == 'a' as int + (x - 26)
    ensures 52 <= x < 62 ==> Alphabet(x) == '0' as int + (x - 52)
    ensures x == 62 ==> Alphabet(x) == '+' as int
    ensures x == 63 ==> Alphabet(x) == '/' as int
  {}

  /** The table knows the alphabet, the pad and the NUL, and nothing else. */
  lemma {:induction false} RevTableExact(c: byte)
    ensures RevTable(c) == -3 <==> c == 0
    ensures RevTable(c) == -2 <==> c == '=' as int
    ensures forall x: sextet :: RevTable(c) == x <==> Alphabet(x) == c
  {
    assert 0 <= RevTable(c) ==> Alphabet(RevTable(c)) == c;
  }

  /** Test vectors of section 10 of RFC 4648: "f", "fo" and "bar". */
  lemma {:induction false} EncodeExamples()
    ensures Encode([102]) == [90, 103, 61, 61]             // "Zg=="
    ensures Encode([102, 111]) == [90, 109, 56, 61]        // "Zm8="
    ensures Quad(98, 97, 114) == [89, 109, 70, 121]        // "YmFy"
  {
    hide RevTable;
  }

  /** Three bytes at a time. */
  lemma {:induction false} EncodeAppends(a: byte, b: byte, c: byte, d: bytes)
    ensures Encode([a, b, c] + d) == Quad(a, b, c) + Encode(d)
  {
    hide Quad;
    var all := [a, b, c] + d;
    assert all[3..] == d;
    EncodeQuad(all);
  }

  /** The first character from `p` on that is neither of the alphabet nor, outside strict mode, a
      foreign byte. */
  ghost predicate StopsAt(s: bytes, p: nat, q: nat, strict: bool)
  {
    && p <= q < |s| && (RevTable(s[q]) < -1 || (RevTable(s[q]) == -1 && strict))
    && forall k :: p <= k < q ==> RevTable(s[k]) >= 0 || (RevTable(s[k]) == -1 && !strict)
  }

  /** The error code, for every text: 2 for a foreign byte in strict mode; 0 for an end of the text, or
      of the data before padding, that completes a group; 1 for any other. */
  lemma {:induction false} DecodeErrorExact(s: bytes, n: nat, p: nat, b: Buf, strict: bool, q: nat)
    requires p <= q <= n < |s| && s[n] == 0 && StopsAt(s, p, q, strict)
    ensures Decode(s, n, p, b, strict).err ==
      if s[q] == 0 then (if q % 4 == 0 then 0 else 1)
      else if s[q] == '=' as int then (if q % 4 == 3 || (q % 4 == 2 && s[q + 1] == '=' as int) then 0 else 1)
      else 2
    decreases q - p
  {
    hide Feed;
    RevTableExact(s[q]);
    if p < q {
      var x := RevTable(s[p]);
      DecodeErrorExact(s, n, p + 1, if x >= 0 then Feed(b, p % 4, x) else b, strict, q);
    }
  }

  lemma {:induction false} StopExists(s: bytes, n: nat, p: nat, strict: bool) returns (q: nat)
    requires p <= n < |s| && s[n] == 0
    ensures p <= q <= n && StopsAt(s, p, q, strict)
    decreases n - p
  {
    var x := RevTable(s[p]);
    if x < -1 || (x == -1 && strict) { q := p; } else { q := StopExists(s, n, p + 1, strict); }
  }

  ghost predicate CharAt(d: bytes, i: nat)
    requires i < |Encode(d)|
  {
    var e := Encode(d);
    if (i == |e| - 1 && |d| % 3 != 0) || (i == |e| - 2 && |d| % 3 == 1) then e[i] == PAD else RevTable(e[i]) >= 0
  }

  /** Where the padding of a text is. */
  lemma {:induction false} EncodeShape(d: bytes)
    ensures forall i :: 0 <= i < |Encode(d)| ==> CharAt(d, i)
    decreases |d|
  {
    hide RevTable, Alphabet;
    if |d| >= 3 {
      EncodeShape(d[3..]);
      forall i | 0 <= i < |Encode(d)| ensures CharAt(d, i) {
        if i >= 4 { assert CharAt(d[3..], i - 4); }
      }
    }
  }

  /** A text with one to three characters missing at its end is an error. */
  lemma {:induction false} CutTextIsError(d: bytes, k: nat, b: Buf, strict: bool)
    requires d != [] && 1 <= k <= 3
    ensures |Encode(d)| >= 4
    ensures var n := |Encode(d)| - k; Decode(Encode(d)[..n] + [0], n, 0, b, strict).err == 1
  {
    hide Decode, Encode, Alphabet;
    EncodeShape(d);
    var e := Encode(d);
    assert |e| >= 4;
    var n := |e| - k;
    var s := e[..n] + [0];
    var q := if |d| % 3 == 1 && k == 1 then n - 1 else n;
    forall j | 0 <= j < q ensures RevTable(s[j]) >= 0 {
      assert s[j] == e[j] && CharAt(d, j);
    }
    if q < n { assert s[q] == e[q] && CharAt(d, q); }
    assert StopsAt(s, 0, q, strict);
    DecodeErrorExact(s, n, 0, b, strict, q);
  }
}

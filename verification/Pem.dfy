// Textual encoding of keys (PEM_strip, PEM2DER) against sections 2 and 13 of RFC 7468.
module Pem {
  import opened Bytes
  import opened Base64

  predicate IsEol(c: byte) { c == 10 || c == 13 }

  /** `s[lo..hi]` without line ends. */
  function Body(s: bytes, lo: int, hi: int): (r: bytes)
    requires 0 <= lo && hi <= |s|
    ensures NulFree(s) ==> NulFree(r)
    ensures |r| <= if lo <= hi then hi - lo else 0
    decreases hi - lo
  {
    if hi <= lo then [] else
      var front := Body(s, lo, hi - 1);
      if IsEol(s[hi - 1]) then front else front + [s[hi - 1]]
  }

  function FirstEol(s: bytes, i: nat): (r: nat)
    requires i <= |s|
    ensures i <= r <= |s|
    decreases |s| - i
  {
    if i == |s| || IsEol(s[i]) then i else FirstEol(s, i + 1)
  }

  function LastEol(s: bytes, i: int): (r: int)
    requires i < |s|
    ensures r <= i && (i >= -1 ==> r >= -1) && (r >= 0 ==> IsEol(s[r]))
    decreases i + 1
  {
    if i < 0 || IsEol(s[i]) then i else LastEol(s, i - 1)
  }

  /** Everything between the end of the first line and the last line end that is at least five
      bytes before the end of the text. */
  function Stripped(pem: bytes): (r: bytes)
    ensures |r| < |pem| || r == []
  {
    Body(pem, FirstEol(pem, 0) + 1, LastEol(pem, |pem| - 5))
  }

  /** PEM_strip */
  method PemStrip(pem: bytes, stripped: array<byte>) returns (len: nat)
    requires stripped.Length == |pem|
    modifies stripped
    ensures len == |Stripped(pem)| && stripped[..len] == Stripped(pem)
    ensures forall k :: len <= k < stripped.Length ==> stripped[k] == old(stripped[k])
  {
    var i := 0;
    while i < |pem| && !IsEol(pem[i])
      invariant i <= |pem| && FirstEol(pem, 0) == FirstEol(pem, i)
    {
      i := i + 1;
    }
    var begin := i + 1;
    i := |pem| - 5;
    while i >= 0 && !IsEol(pem[i])
      invariant i < |pem| && LastEol(pem, |pem| - 5) == LastEol(pem, i)
    {
      i := i - 1;
    }
    var end := i;
    len, i := 0, begin;
    while i < end
      invariant begin <= i && (i <= end || (end < begin && i == begin))
      invariant len == |Body(pem, begin, if i <= end then i else end)| <= i - begin
      invariant stripped[..len] == Body(pem, begin, if i <= end then i else end)
      invariant forall k :: len <= k < stripped.Length ==> stripped[k] == old(stripped[k])
    {
      if !IsEol(pem[i]) {
        stripped[len] := pem[i];
        len := len + 1;
      }
      i := i + 1;
    }
  }

  /** What PEM2DER decodes: the stripped text in a zeroed buffer as long as the input. */
  function PemDecode(pem: bytes): Outcome
    requires Stripped(pem) != []
  {
    var text := Stripped(pem);
    var padded := text + seq(|pem| - |text|, _ => 0);
    Decode(padded, FirstNul(padded, 0), 0, CLEARED, false)
  }

  function FirstNul(s: bytes, i: nat): (n: nat)
    requires i < |s| && s[|s| - 1] == 0
    ensures i <= n < |s| && s[n] == 0 && forall k :: i <= k < n ==> s[k] != 0
    decreases |s| - i
  {
    if s[i] == 0 then i else FirstNul(s, i + 1)
  }

  /** PEM2DER: 1 for no input, -1 for an empty body, otherwise the decoder's error code. */
  method Pem2Der(pem: bytes, der: array<byte>, len0: nat) returns (rc: int, len: nat)
    requires Stripped(pem) != [] ==> |PemDecode(pem).out| <= der.Length
    modifies der
    ensures pem == [] ==> rc == 1
    ensures pem != [] && Stripped(pem) == [] ==> rc == -1
    ensures Stripped(pem) != [] ==> rc == PemDecode(pem).err
    ensures rc != 0 ==> len == len0
    ensures rc == 0 ==> Stripped(pem) != [] && len == |PemDecode(pem).out| && der[..len] == PemDecode(pem).out
    ensures rc == 0 ==> forall k :: len <= k < der.Length ==> der[k] == old(der[k])
  {
    len := len0;
    if |pem| == 0 { return 1, len0; }
    var buf := new byte[|pem|](_ => 0);
    var stripped := PemStrip(pem, buf);
    if stripped == 0 { return -1, len0; }
    ghost var text := Stripped(pem);
    assert buf[..] == text + seq(|pem| - |text|, _ => 0);
    var tlen;
    tlen, rc := RawBase64Decode(buf, FirstNul(buf[..], 0), der, false);
    if rc == 0 { len := tlen; }
  }

  // ----------------------------------------------------------- round trip

  ghost predicate OneLine(s: bytes) { forall i :: 0 <= i < |s| ==> !IsEol(s[i]) }

  ghost predicate Eols(s: bytes) { forall i :: 0 <= i < |s| ==> IsEol(s[i]) }

  /** A textual encoding of `d`: a header line, the Base64 text broken at any positions by any
      line ends, a footer line, and at most four bytes of final line ends. */
  ghost predicate PemOf(pem: bytes, d: bytes, header: bytes, sep1: bytes, body: bytes,
                        sep2: bytes, footer: bytes, tail: bytes)
  {
    && pem == header + sep1 + body + sep2 + footer + tail
    && OneLine(header) && sep1 != [] && Eols(sep1) && sep2 != [] && Eols(sep2)
    && OneLine(footer) && Eols(tail) && |footer| + |tail| >= 4 && |tail| <= 4
    && Body(body, 0, |body|) == Encode(d)
  }

  lemma {:induction false} FirstEolIs(s: bytes, i: nat, r: nat)
    requires i <= r < |s| && IsEol(s[r]) && forall k :: i <= k < r ==> !IsEol(s[k])
    ensures FirstEol(s, i) == r
    decreases r - i
  {
    if i < r { FirstEolIs(s, i + 1, r); }
  }

  lemma {:induction false} LastEolIs(s: bytes, i: int, r: nat)
    requires r <= i < |s| && IsEol(s[r]) && forall k :: r < k <= i ==> !IsEol(s[k])
    ensures LastEol(s, i) == r
    decreases i - r
  {
    if r < i { LastEolIs(s, i - 1, r); }
  }

  lemma {:induction false} BodySkipsEols(s: bytes, lo: nat, mid: nat, hi: nat)
    requires lo <= mid <= hi <= |s| && forall k :: mid <= k < hi ==> IsEol(s[k])
    ensures Body(s, lo, hi) == Body(s, lo, mid)
    decreases hi - mid
  {
    if mid < hi { BodySkipsEols(s, lo, mid, hi - 1); }
  }

  lemma {:induction false} BodyAfterEols(s: bytes, lo: nat, mid: nat, body: bytes, n: nat)
    requires lo <= mid && n <= |body| && mid + n <= |s|
    requires forall k :: lo <= k < mid ==> IsEol(s[k])
    requires forall k :: 0 <= k < n ==> s[mid + k] == body[k]
    ensures Body(s, lo, mid + n) == Body(body, 0, n)
    decreases n
  {
    if n == 0 {
      BodySkipsEols(s, lo, lo, mid);
    } else {
      BodyAfterEols(s, lo, mid, body, n - 1);
      assert s[mid + (n - 1)] == body[n - 1];
    }
  }

  lemma {:induction false} StripsToEncoding(pem: bytes, d: bytes, header: bytes, sep1: bytes, body: bytes,
                                            sep2: bytes, footer: bytes, tail: bytes)
    requires PemOf(pem, d, header, sep1, body, sep2, footer, tail)
    ensures Stripped(pem) == Encode(d)
  {
    hide Body, FirstEol, LastEol, Encode;
    var h, b := |header|, |header| + |sep1|;
    var f := b + |body| + |sep2|;
    assert forall k :: 0 <= k < h ==> pem[k] == header[k];
    assert forall k :: 0 <= k < |sep1| ==> pem[h + k] == sep1[k];
    assert pem[h] == sep1[0];
    FirstEolIs(pem, 0, h);
    assert pem[f - 1] == sep2[|sep2| - 1];
    assert forall k :: f <= k < f + |footer| ==> pem[k] == footer[k - f];
    LastEolIs(pem, |pem| - 5, f - 1);
    assert forall k :: 0 <= k < |body| ==> pem[b + k] == body[k];
    assert forall k :: b + |body| <= k < f ==> pem[k] == sep2[k - b - |body|];
    assert forall k :: h + 1 <= k < b ==> pem[k] == sep1[k - h];
    BodySkipsEols(pem, h + 1, b + |body|, f - 1);
    BodyAfterEols(pem, h + 1, b, body, |body|);
  }

  lemma {:induction false} EncodeHasNoNul(d: bytes)
    ensures NulFree(Encode(d))
    decreases |d|
  {
    if |d| >= 3 { EncodeHasNoNul(d[3..]); }
  }

  lemma {:induction false} FirstNulIs(s: bytes, i: nat, n: nat)
    requires i <= n < |s| && s[n] == 0 && s[|s| - 1] == 0 && forall k :: i <= k < n ==> s[k] != 0
    ensures FirstNul(s, i) == n
    decreases n - i
  {
    if i < n { FirstNulIs(s, i + 1, n); }
  }

  /** PEM2DER inverts the textual encoding of every non-empty byte string. */
  lemma {:induction false} PemInverts(pem: bytes, d: bytes, header: bytes, sep1: bytes, body: bytes,
                                      sep2: bytes, footer: bytes, tail: bytes)
    requires PemOf(pem, d, header, sep1, body, sep2, footer, tail) && d != []
    ensures Stripped(pem) != [] && PemDecode(pem) == Outcome(d, |d|, 0)
  {
    hide Decode, Encode, Stripped;
    StripsToEncoding(pem, d, header, sep1, body, sep2, footer, tail);
    EncodeHasNoNul(d);
    var text := Encode(d);
    var padded := text + seq(|pem| - |text|, _ => 0);
    assert padded[|text|] == 0 && forall k :: 0 <= k < |text| ==> padded[k] == text[k];
    FirstNulIs(padded, 0, |text|);
    assert Holds(padded, 0, text);
    DecodeInvertsEncode(d, padded, 0, CLEARED, false);
  }

  /** The stripped text never outgrows its buffer, and three bytes per four characters always fit. */
  lemma {:induction false} PemDecodeBound(pem: bytes)
    requires Stripped(pem) != []
    ensures var o := PemDecode(pem); o.result == |o.out| <= 3 * (|pem| / 4)
  {
    var text := Stripped(pem);
    var padded := text + seq(|pem| - |text|, _ => 0);
    DecodeAccounting(padded, FirstNul(padded, 0), 0, CLEARED, false);
  }

  /** The method applied to a textual encoding: success, exactly those bytes, exactly that length. */
  method DecodeKey(pem: bytes, der: array<byte>, ghost d: bytes, ghost header: bytes, ghost sep1: bytes,
                   ghost body: bytes, ghost sep2: bytes, ghost footer: bytes, ghost tail: bytes)
    returns (rc: int, len: nat)
    requires PemOf(pem, d, header, sep1, body, sep2, footer, tail) && 0 < |d| <= der.Length
    modifies der
    ensures rc == 0 && len == |d| && der[..len] == d
  {
    PemInverts(pem, d, header, sep1, body, sep2, footer, tail);
    rc, len := Pem2Der(pem, der, 0);
  }

  /** With no line end behind the first one, and at least five bytes before the end of the text, there
      is no body: the key is refused. */
  lemma {:induction false} NoBodyIsRefused(pem: bytes, i: nat)
    requires i <= |pem| && (forall k :: 0 <= k < i ==> !IsEol(pem[k]))
    requires forall k :: i < k <= |pem| - 5 ==> !IsEol(pem[k])
    ensures Stripped(pem) == []
  {
    hide Body;
    FirstEolFrom(pem, 0, i);
    if |pem| >= 5 { LastEolBelow(pem, |pem| - 5, i); }
    assert FirstEol(pem, 0) + 1 >= LastEol(pem, |pem| - 5);
    assert Body(pem, FirstEol(pem, 0) + 1, LastEol(pem, |pem| - 5)) == [];
  }

  lemma {:induction false} FirstEolFrom(s: bytes, j: nat, i: nat)
    requires j <= i <= |s| && forall k :: j <= k < i ==> !IsEol(s[k])
    ensures FirstEol(s, j) >= i
    decreases i - j
  {
    if j < i { FirstEolFrom(s, j + 1, i); }
  }

  lemma {:induction false} LastEolBelow(s: bytes, j: int, i: nat)
    requires j < |s| && forall k :: i < k <= j ==> !IsEol(s[k])
    ensures LastEol(s, j) <= i
    decreases j
  {
    if j > i { LastEolBelow(s, j - 1, i); }
  }
}

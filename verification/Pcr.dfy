// PCR selections as bitmaps (pcr_select, comp_pcr_selection; TPM 2.0 Library Part 2, section 10.6).
module Pcr {
  import opened Bytes

  /** BYTE pcrSelect[TPM2_PCR_SELECT_MAX] */
  const SELECT_MAX: nat := 4
  /** sizeofSelect: 24 registers. */
  const SELECT_SIZE: nat := 3

  datatype Selection = Selection(hash: int, size: nat, select: bytes)

  /** Register `r` is selected. */
  predicate Selected(s: Selection, r: nat)
    requires r / 8 < |s.select|
  {
    Bit(s.select[r / 8], r % 8)
  }

  lemma {:induction false} ByteBits()
    ensures Pow2(8) == 256 && forall i: nat :: i < 8 ==> Pow2(i) < 256
  {
    Pow2Values();
    forall i: nat | i < 8 ensures Pow2(i) < 256 { Pow2Below(i, 8); }
  }

  lemma {:induction false} Pow2Below(i: nat, k: nat)
    requires i < k
    ensures Pow2(i) < Pow2(k)
  {
    if i < k - 1 { Pow2Below(i, k - 1); }
    Pow2Positive(i);
  }

  lemma {:induction false} Pow2Positive(i: nat)
    ensures Pow2(i) > 0
  {
    if i > 0 { Pow2Positive(i - 1); }
  }

  /** (BYTE)(1u << k) */
  function Flag(k: nat): byte
    requires k < 8
  {
    ByteBits();
    Pow2(k)
  }

  /** pcr_select: a register's bit is set exactly when the register is listed. */
  method PcrSelect(alg: int, pcrs: seq<nat>) returns (sel: seq<Selection>)
    requires forall i :: 0 <= i < |pcrs| ==> pcrs[i] < 8 * SELECT_MAX
    ensures |sel| == 1 && sel[0].hash == alg && sel[0].size == SELECT_SIZE && |sel[0].select| == SELECT_MAX
    ensures forall r: nat :: r < 8 * SELECT_MAX ==> (Selected(sel[0], r) <==> r in pcrs)
  {
    var bits := new byte[SELECT_MAX](_ => 0);
    forall r: nat | r < 8 * SELECT_MAX ensures !Bit(0, r % 8) { BitOfZero(r % 8); }
    for i := 0 to |pcrs|
      invariant forall r: nat :: r < 8 * SELECT_MAX ==> (Bit(bits[r / 8], r % 8) <==> r in pcrs[..i])
    {
      var pcr := pcrs[i];
      ghost var was := bits[..];
      bits[pcr / 8] := Or8(bits[pcr / 8], Flag(pcr % 8));
      forall r: nat | r < 8 * SELECT_MAX ensures Bit(bits[r / 8], r % 8) <==> r in pcrs[..i + 1] {
        assert Bit(was[r / 8], r % 8) <==> r in pcrs[..i];
        assert r in pcrs[..i + 1] <==> r in pcrs[..i] || r == pcr;
        BitOfOr(was[r / 8], Pow2(pcr % 8), r % 8);
        BitOfPow2(pcr % 8, r % 8);
      }
    }
    assert pcrs[..|pcrs|] == pcrs;
    sel := [Selection(alg, SELECT_SIZE, bits[..])];
  }

  ghost predicate SameSelection(a: Selection, b: Selection)
    requires a.size <= |a.select| && b.size <= |b.select|
  {
    a.hash == b.hash && a.size == b.size && a.select[..a.size] == b.select[..b.size]
  }

  /** comp_pcr_selection */
  method CompPcrSelection(a: seq<Selection>, b: seq<Selection>) returns (rc: int)
    requires forall i :: 0 <= i < |a| ==> a[i].size <= |a[i].select|
    requires forall i :: 0 <= i < |b| ==> b[i].size <= |b[i].select|
    ensures rc == if |a| == |b| && (forall i :: 0 <= i < |a| ==> SameSelection(a[i], b[i])) then 0 else -1
  {
    if |a| != |b| { return -1; }
    for i := 0 to |a|
      invariant forall k :: 0 <= k < i ==> SameSelection(a[k], b[k])
    {
      if a[i].hash != b[i].hash { assert !SameSelection(a[i], b[i]); return -1; }
      if a[i].size != b[i].size { assert !SameSelection(a[i], b[i]); return -1; }
      if a[i].select[..a[i].size] != b[i].select[..a[i].size] { assert !SameSelection(a[i], b[i]); return -1; }
    }
    return 0;
  }

  /** Two byte strings are equal exactly when they select the same registers. */
  lemma {:induction false} SameBits(a: Selection, b: Selection)
    requires a.size == b.size <= |a.select| == |b.select|
    ensures a.select[..a.size] == b.select[..b.size]
        <==> forall r: nat :: r < 8 * a.size ==> (Selected(a, r) <==> Selected(b, r))
  {
    if forall r: nat :: r < 8 * a.size ==> (Selected(a, r) <==> Selected(b, r)) {
      forall k | 0 <= k < a.size ensures a.select[k] == b.select[k] {
        ByteBits();
        forall i | 0 <= i < 8 ensures Bit(a.select[k], i) <==> Bit(b.select[k], i) {
          var r := 8 * k + i;
          assert r / 8 == k && r % 8 == i;
          assert Selected(a, r) <==> Selected(b, r);
        }
        BitsDetermine(a.select[k], b.select[k], 8);
      }
    }
    if a.select[..a.size] == b.select[..b.size] {
      forall r: nat | r < 8 * a.size ensures Selected(a, r) <==> Selected(b, r) {
        assert a.select[..a.size][r / 8] == b.select[..b.size][r / 8];
      }
    }
  }

  /** Comparing two selections made from lists is comparing algorithm and register set, below
      register 24: order and repetition do not matter, and registers from 24 on are not compared. */
  method SelectAndCompare(alg1: int, pcrs1: seq<nat>, alg2: int, pcrs2: seq<nat>) returns (rc: int)
    requires forall i :: 0 <= i < |pcrs1| ==> pcrs1[i] < 8 * SELECT_MAX
    requires forall i :: 0 <= i < |pcrs2| ==> pcrs2[i] < 8 * SELECT_MAX
    ensures rc == 0 <==> alg1 == alg2 && forall r: nat :: r < 24 ==> (r in pcrs1 <==> r in pcrs2)
  {
    var a := PcrSelect(alg1, pcrs1);
    var b := PcrSelect(alg2, pcrs2);
    rc := CompPcrSelection(a, b);
    SameBits(a[0], b[0]);
    assert rc == 0 <==> SameSelection(a[0], b[0]);
  }
}

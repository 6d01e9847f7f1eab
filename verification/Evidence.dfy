// RA-TLS evidence: a tagged CBOR array of a TEE quote and serialized claims, built by
// make_cbor_tpm2_claims_from_enclave and make_cbor_sgx_evidence and taken apart by
// extract_cbor_evidence_and_compare_hash.  Hashes are arbitrary functions.
module Evidence {
  import opened Bytes
  import opened ProcTable
  import opened Pem
  import opened Cbor

  const K_PUBKEY_HASH: cstring := [112, 117, 98, 107, 101, 121, 45, 104, 97, 115, 104] // "pubkey-hash"
  const K_TPM2_QUOTE: cstring := [116, 112, 109, 50, 45, 113, 117, 111, 116, 101]      // "tpm2-quote"
  const K_NONCE: cstring := [110, 111, 110, 99, 101]                                   // "nonce"

  const TAG_TEE_QUOTE: nat := 60000
  const TAG_TEE_TPM2_QUOTE: nat := 60004
  const QUOTE_MIN_SIZE: nat := 1020
  const RAW_QUOTE_MAX_SIZE: nat := 8192
  const PUB_KEY_MAX_SIZE: nat := 626
  const MAXSIZE_SER_TPM2_QUOTE: nat := 1000
  const ALG_SHA256: nat := 1
  const ALG_SHA384: nat := 7
  const ALG_SHA512: nat := 8

  type digest48 = d: bytes | |d| == 48 witness seq(48, _ => 0)

  type digest64 = d: bytes | |d| == 64 witness seq(64, _ => 0)

  datatype Hashes = Hashes(h256: bytes -> digest, h384: bytes -> digest48, h512: bytes -> digest64)

  // -------------------------------------------------------------- producer

  function EntryItem(h: Hashes, der: bytes): Item { Array([UInt(1, ALG_SHA256), BStr(h.h256(der))]) }

  function ClaimsItem(h: Hashes, der: bytes, nonce: bytes, tpm2: bytes): Item
  {
    Map([Pair(TStr(K_PUBKEY_HASH), BStr(Ser(EntryItem(h, der)))),
         Pair(TStr(K_NONCE), BStr(nonce)), Pair(TStr(K_TPM2_QUOTE), BStr(tpm2))])
  }

  function EvidenceItem(quote: bytes, claims: bytes, ctype: nat): Item
  {
    Tag(ctype, Array([BStr(quote), BStr(claims)]))
  }

  /** make_cbor_tpm2_claims_from_enclave (with make_cbor_pkhash_entry); `der` is the key's DER form. */
  method MakeClaims(h: Hashes, der: bytes, nonce: bytes, tpm2: bytes) returns (claims: bytes)
    ensures claims == Ser(ClaimsItem(h, der, nonce, tpm2))
  {
    var entry: seq<Item> := [];
    entry := entry + [UInt(1, ALG_SHA256)];
    entry := entry + [BStr(h.h256(der))];
    assert entry == EntryItem(h, der).items;
    var hash := Ser(Array(entry));
    var pairs: seq<Pair> := [];
    pairs := pairs + [Pair(TStr(K_PUBKEY_HASH), BStr(hash))];
    pairs := pairs + [Pair(TStr(K_NONCE), BStr(nonce))];
    pairs := pairs + [Pair(TStr(K_TPM2_QUOTE), BStr(tpm2))];
    assert pairs == ClaimsItem(h, der, nonce, tpm2).pairs;
    claims := Ser(Map(pairs));
  }

  /** make_cbor_sgx_evidence */
  method MakeEvidence(quote: bytes, claims: bytes, ctype: nat) returns (evidence: bytes)
    ensures evidence == Ser(EvidenceItem(quote, claims, ctype))
  {
    var items: seq<Item> := [];
    items := items + [BStr(quote)];
    items := items + [BStr(claims)];
    assert items == [BStr(quote), BStr(claims)];
    evidence := Ser(Tag(ctype, Array(items)));
  }

  // -------------------------------------------------------------- consumer

  /** Overrun: the C code would write past an output buffer or read an item as the wrong type. */
  datatype Status = Success | Unexpected | InvalidExtension | InvalidSignature | Overrun

  /** Offset and length of the report data a quote commits to the claims with; None: unknown type.
      The layouts are those of sgx_quote3_t, sgx_quote4_t and sgx_quote5_t. */
  function ReportData(quote: bytes): Option<(nat, nat)>
    requires |quote| >= QUOTE_MIN_SIZE
  {
    var quoteType := UnLe(quote[4..8]);
    if quoteType == 0x81 then Some((if UnLe(quote[..2]) == 5 then 54 + 520 else 48 + 520, 48))
    else if quoteType == 0 then Some((48 + 320, 32))
    else None
  }

  /** sgx_tls_compare_quote_hash */
  function CompareQuote(h: Hashes, quote: bytes, claims: bytes): Status
    requires |quote| >= QUOTE_MIN_SIZE
  {
    match ReportData(quote)
    case None => Unexpected
    case Some((off, len)) =>
      var hash := if len == 48 then h.h384(claims) else h.h256(claims);
      if quote[off..off + len] == hash then Success else InvalidSignature
  }

  /** The key's DER form as PEM2DER computes it: error code and bytes. */
  function KeyOf(pem: bytes): (int, bytes)
  {
    if pem == [] then (1, []) else if Stripped(pem) == [] then (-1, [])
    else var o := PemDecode(pem); (o.err, o.out)
  }

  function HashBy(h: Hashes, alg: nat, der: bytes): (d: bytes)
    ensures alg == 1 ==> d == h.h256(der)
    ensures alg == 7 ==> d == h.h384(der)
    ensures alg == 8 ==> d == h.h512(der)
  {
    if alg == ALG_SHA256 then h.h256(der) else if alg == ALG_SHA384 then h.h384(der) else h.h512(der)
  }

  /** compare_cert_pubkey_against_cbor_claim_hash */
  function CompareKey(h: Hashes, pem: bytes, entry: Item): Status
  {
    var (rc, der) := KeyOf(pem);
    if |der| > PUB_KEY_MAX_SIZE then Overrun
    else if rc != 0 then Unexpected
    else if !entry.Array? || |entry.items| != 2 || !entry.items[0].UInt? || !entry.items[1].BStr? then InvalidExtension
    else
      var alg, val := entry.items[0].value, entry.items[1].bs;
      if alg != ALG_SHA256 && alg != ALG_SHA384 && alg != ALG_SHA512 then InvalidExtension
      else if |val| != (if alg == ALG_SHA256 then 32 else if alg == ALG_SHA384 then 48 else 64) then InvalidExtension
      else if val != HashBy(h, alg, der) then InvalidSignature
      else Success
  }

  /** The output buffers while the claims are read. */
  datatype Claims = Claims(status: Status, tpm2: bytes, nonce: Option<bytes>)

  /** One claim; keys are compared by prefix. */
  function ReadClaim(h: Hashes, pem: bytes, c: Claims, p: Pair): Claims
  {
    if c.status != Success then c
    else if !p.key.TStr? || p.key.ts == [] then c.(status := InvalidExtension)
    else if KeyMatches(K_PUBKEY_HASH, p.key.ts) then
      if !p.val.BStr? || p.val.bs == [] then c.(status := InvalidExtension)
      else
        match LoadItem(p.val.bs)
        case None => c.(status := InvalidExtension)
        case Some(entry) => c.(status := CompareKey(h, pem, entry))
    else if KeyMatches(K_TPM2_QUOTE, p.key.ts) then
      if !p.val.BStr? then c.(status := Overrun)
      else if |p.val.bs| <= MAXSIZE_SER_TPM2_QUOTE then c.(tpm2 := p.val.bs)
      else c.(tpm2 := [])
    else if KeyMatches(K_NONCE, p.key.ts) then
      if !p.val.BStr? then c.(status := Overrun)
      else if |p.val.bs| == 32 then c.(nonce := Some(p.val.bs))
      else c
    else c
  }

  function ReadClaims(h: Hashes, pem: bytes, ps: seq<Pair>): Claims
  {
    if |ps| == 0 then Claims(Success, [], None)
    else ReadClaim(h, pem, ReadClaims(h, pem, ps[..|ps| - 1]), ps[|ps| - 1])
  }

  datatype Evidence = Evidence(status: Status, ctype: Option<nat>, quote: Option<bytes>, tpm2: bytes,
                               nonce: Option<bytes>)

  function Fail(status: Status, ctype: Option<nat>): Evidence { Evidence(status, ctype, None, [], None) }

  /** The quote and the claims bytes of a well-formed evidence item. */
  datatype Parts = NoParts(status: Status, ctype: Option<nat>) | Parts(ctype: Option<nat>, quote: bytes, claims: bytes)

  function PartsOf(buf: bytes): (r: Parts)
    ensures r.Parts? ==> |r.quote| >= QUOTE_MIN_SIZE && r.claims != []
    ensures r.NoParts? ==> r.status != Success
  {
    if buf == [] then NoParts(Unexpected, None) else
      match LoadItem(buf)
      case None => NoParts(Unexpected, None)
      case Some(x) =>
        if !x.Tag? then NoParts(InvalidExtension, None)
        else
          var t, y := Some(x.tag), x.item;
          if x.tag != TAG_TEE_QUOTE && x.tag != TAG_TEE_TPM2_QUOTE then NoParts(InvalidExtension, t)
          else if !y.Array? || |y.items| != 2 then NoParts(InvalidExtension, t)
          else if !y.items[0].BStr? || |y.items[0].bs| < QUOTE_MIN_SIZE then NoParts(InvalidExtension, t)
          else if !y.items[1].BStr? || y.items[1].bs == [] then NoParts(InvalidExtension, t)
          else Parts(t, y.items[0].bs, y.items[1].bs)
  }

  function ClaimPairs(claims: bytes): Option<seq<Pair>>
  {
    match LoadItem(claims)
    case Some(x) => if x.Map? && |x.pairs| >= 1 then Some(x.pairs) else None
    case None => None
  }

  function ReadEvidence(h: Hashes, pem: bytes, buf: bytes): Evidence
  {
    match PartsOf(buf)
    case NoParts(st, t) => Fail(st, t)
    case Parts(t, quote, claims) =>
      var st := CompareQuote(h, quote, claims);
      if st != Success then Fail(st, t) else
        match ClaimPairs(claims)
        case None => Fail(InvalidExtension, t)
        case Some(ps) =>
          var c := ReadClaims(h, pem, ps);
          if c.status != Success then Evidence(c.status, t, None, c.tpm2, c.nonce)
          else if |quote| > RAW_QUOTE_MAX_SIZE then Evidence(Overrun, t, None, c.tpm2, c.nonce)
          else Evidence(Success, t, Some(quote), c.tpm2, c.nonce)
  }

  method KeyToDer(pem: bytes) returns (rc: int, der: bytes)
    requires |KeyOf(pem).1| <= PUB_KEY_MAX_SIZE
    ensures rc == KeyOf(pem).0 && (rc == 0 ==> der == KeyOf(pem).1)
  {
    var pk := new byte[PUB_KEY_MAX_SIZE](_ => 0);
    var len;
    rc, len := Pem2Der(pem, pk, 0);
    der := if rc == 0 then pk[..len] else [];
  }

  method CompareKeyHash(h: Hashes, pem: bytes, entry: Item) returns (st: Status)
    ensures st == CompareKey(h, pem, entry)
  {
    hide KeyOf;
    if |KeyOf(pem).1| > PUB_KEY_MAX_SIZE { return Overrun; }
    var rc, der := KeyToDer(pem);
    if rc != 0 { return Unexpected; }
    if !entry.Array? || |entry.items| != 2 { return InvalidExtension; }
    if !entry.items[0].UInt? { return InvalidExtension; }
    if !entry.items[1].BStr? { return InvalidExtension; }
    var alg, val := entry.items[0].value, entry.items[1].bs;
    var size;
    if alg == ALG_SHA256 { size := 32; }
    else if alg == ALG_SHA384 { size := 48; }
    else if alg == ALG_SHA512 { size := 64; }
    else { return InvalidExtension; }
    if |val| != size { return InvalidExtension; }
    if val != HashBy(h, alg, der) { return InvalidSignature; }
    st := Success;
  }

  /** extract_cbor_evidence_and_compare_hash */
  method ExtractEvidence(h: Hashes, pem: bytes, buf: bytes) returns (e: Evidence)
    ensures e == ReadEvidence(h, pem, buf)
  {
    hide CompareKey, CompareQuote, LoadItem, KeyMatches, PartsOf, ClaimPairs;
    var parts := PartsOf(buf);
    if parts.NoParts? { return Fail(parts.status, parts.ctype); }
    var st := CompareQuote(h, parts.quote, parts.claims);
    if st != Success { return Fail(st, parts.ctype); }
    var pairs := ClaimPairs(parts.claims);
    if pairs.None? { return Fail(InvalidExtension, parts.ctype); }
    var ps := pairs.value;
    var sertpm2: bytes, nonce: Option<bytes> := [], None;
    assert ps[..0] == [];
    for i := 0 to |ps|
      invariant ReadClaims(h, pem, ps[..i]) == Claims(Success, sertpm2, nonce)
    {
      assert ps[..i + 1][..i] == ps[..i];
      var p := ps[i];
      var bad := Success;
      if !p.key.TStr? || |p.key.ts| == 0 {
        bad := InvalidExtension;
      } else if KeyMatches(K_PUBKEY_HASH, p.key.ts) {
        if !p.val.BStr? || |p.val.bs| == 0 {
          bad := InvalidExtension;
        } else {
          var entry := LoadItem(p.val.bs);
          if entry.None? { bad := InvalidExtension; }
          else { bad := CompareKeyHash(h, pem, entry.value); }
        }
      } else if KeyMatches(K_TPM2_QUOTE, p.key.ts) {
        if !p.val.BStr? { bad := Overrun; }
        else if |p.val.bs| <= MAXSIZE_SER_TPM2_QUOTE { sertpm2 := p.val.bs; }
        else { sertpm2 := []; }
      } else if KeyMatches(K_NONCE, p.key.ts) {
        if !p.val.BStr? { bad := Overrun; }
        else if |p.val.bs| == 32 { nonce := Some(p.val.bs); }
      }
      if bad != Success {
        assert ReadClaims(h, pem, ps[..i + 1]) == Claims(bad, sertpm2, nonce);
        ErrorSticks(h, pem, ps, i + 1);
        return Evidence(bad, parts.ctype, None, sertpm2, nonce);
      }
    }
    assert ps[..|ps|] == ps;
    if |parts.quote| > RAW_QUOTE_MAX_SIZE { return Evidence(Overrun, parts.ctype, None, sertpm2, nonce); }
    e := Evidence(Success, parts.ctype, Some(parts.quote), sertpm2, nonce);
  }

  /** Reading stops at the first bad claim. */
  lemma {:induction false} ErrorSticks(h: Hashes, pem: bytes, ps: seq<Pair>, i: nat)
    requires i <= |ps| && ReadClaims(h, pem, ps[..i]).status != Success
    ensures ReadClaims(h, pem, ps) == ReadClaims(h, pem, ps[..i])
    decreases |ps| - i
  {
    if i == |ps| {
      assert ps[..i] == ps;
    } else {
      assert ps[..i + 1][..i] == ps[..i];
      ErrorSticks(h, pem, ps, i + 1);
    }
  }

  // ------------------------------------------------------------- soundness

  /** The entry is a pair of a known algorithm and the hash of exactly this key by it. */
  ghost predicate EntryBinds(h: Hashes, pem: bytes, entry: Item)
  {
    && KeyOf(pem).0 == 0 && |KeyOf(pem).1| <= PUB_KEY_MAX_SIZE
    && exists w: nat, alg: nat ::
         entry == Array([UInt(w, alg), BStr(HashBy(h, alg, KeyOf(pem).1))]) && (alg == 1 || alg == 7 || alg == 8)
  }

  /** The comparison succeeds exactly when the entry binds the key, and blames the signature exactly
      when the entry has the form for it but another hash. */
  lemma {:induction false} KeyComparisonExact(h: Hashes, pem: bytes, entry: Item)
    ensures CompareKey(h, pem, entry) == Success <==> EntryBinds(h, pem, entry)
    ensures CompareKey(h, pem, entry) == InvalidSignature <==>
      && KeyOf(pem).0 == 0 && |KeyOf(pem).1| <= PUB_KEY_MAX_SIZE
      && !EntryBinds(h, pem, entry)
      && exists w: nat, alg: nat, val: bytes ::
           entry == Array([UInt(w, alg), BStr(val)])
           && ((alg == 1 && |val| == 32) || (alg == 7 && |val| == 48) || (alg == 8 && |val| == 64))
    ensures CompareKey(h, pem, entry) == Overrun <==> |KeyOf(pem).1| > 626
    ensures CompareKey(h, pem, entry) == Unexpected <==> |KeyOf(pem).1| <= 626 && KeyOf(pem).0 != 0
  {
    hide KeyOf;
    if entry.Array? && |entry.items| == 2 && entry.items[0].UInt? && entry.items[1].BStr? {
      assert entry.items == [UInt(entry.items[0].width, entry.items[0].value), BStr(entry.items[1].bs)];
    }
  }

  /** The claim's value is a hash entry for exactly this key. */
  ghost predicate BindsKey(h: Hashes, pem: bytes, p: Pair)
  {
    p.val.BStr? && LoadItem(p.val.bs).Some? && EntryBinds(h, pem, LoadItem(p.val.bs).value)
  }

  predicate IsKeyClaim(p: Pair) { p.key.TStr? && p.key.ts != [] && KeyMatches(K_PUBKEY_HASH, p.key.ts) }

  ghost predicate ClaimOk(h: Hashes, pem: bytes, p: Pair)
  {
    && p.key.TStr? && p.key.ts != []
    && (IsKeyClaim(p) ==> BindsKey(h, pem, p))
    && (KeyMatches(K_TPM2_QUOTE, p.key.ts) || KeyMatches(K_NONCE, p.key.ts) ==> p.val.BStr?)
  }

  lemma {:induction false} LoadEmpty()
    ensures LoadItem([]).None?
  {}

  lemma {:induction false} ClaimsExact(h: Hashes, pem: bytes, ps: seq<Pair>)
    ensures ReadClaims(h, pem, ps).status == Success <==> forall i :: 0 <= i < |ps| ==> ClaimOk(h, pem, ps[i])
  {
    hide KeyMatches, KeyOf, CompareKey, EntryBinds, LoadItem;
    if |ps| > 0 {
      var n := |ps| - 1;
      var front, p := ps[..n], ps[n];
      ClaimsExact(h, pem, front);
      assert forall i :: 0 <= i < n ==> ps[i] == front[i];
      LoadEmpty();
      if p.val.BStr? && LoadItem(p.val.bs).Some? { KeyComparisonExact(h, pem, LoadItem(p.val.bs).value); }
      assert ReadClaim(h, pem, Claims(Success, [], None), p).status == Success ==> ClaimOk(h, pem, p);
    }
  }

  /** The quote's report data begins with the hash of the claims; by quote type and version. */
  ghost predicate Commits(h: Hashes, quote: bytes, claims: bytes)
    requires |quote| >= QUOTE_MIN_SIZE
  {
    || (UnLe(quote[4..8]) == 0 && quote[368..400] == h.h256(claims))
    || (UnLe(quote[4..8]) == 0x81 && UnLe(quote[..2]) != 5 && quote[568..616] == h.h384(claims))
    || (UnLe(quote[4..8]) == 0x81 && UnLe(quote[..2]) == 5 && quote[574..622] == h.h384(claims))
  }

  lemma {:induction false} QuoteComparisonExact(h: Hashes, quote: bytes, claims: bytes)
    requires |quote| >= QUOTE_MIN_SIZE
    ensures CompareQuote(h, quote, claims) == Success <==> Commits(h, quote, claims)
  {
    hide UnLe;
  }

  /** The bytes are a tagged array of a quote and of serialized claims. */
  ghost predicate Carries(buf: bytes, t: nat, q: bytes, c: bytes)
  {
    LoadItem(buf) == Some(Tag(t, Array([BStr(q), BStr(c)])))
  }

  lemma {:induction false} PartsExact(buf: bytes, t: nat, q: bytes, c: bytes)
    ensures PartsOf(buf) == Parts(Some(t), q, c) <==>
      Carries(buf, t, q, c) && (t == 60000 || t == 60004) && |q| >= 1020 && c != []
  {
    hide LoadItem;
    LoadEmpty();
    if PartsOf(buf) == Parts(Some(t), q, c) {
      var y := LoadItem(buf).value.item;
      assert y.items == [BStr(q), BStr(c)];
    }
  }

  lemma {:induction false} ClaimPairsExact(c: bytes, ps: seq<Pair>)
    ensures ClaimPairs(c) == Some(ps) <==> LoadItem(c) == Some(Map(ps)) && ps != []
  {
    hide LoadItem;
  }

  /** Quote and claims fit together: the quote commits to the claims, which are a map with no claim out
      of order. */
  ghost predicate InOrder(h: Hashes, pem: bytes, t: nat, q: bytes, c: bytes, ps: seq<Pair>)
  {
    && (t == 60000 || t == 60004) && 1020 <= |q| <= 8192 && Commits(h, q, c)
    && c != [] && LoadItem(c) == Some(Map(ps)) && ps != []
    && forall i :: 0 <= i < |ps| ==> ClaimOk(h, pem, ps[i])
  }

  /** Exactly what is accepted, tag 60000 or 60004, in terms of what the bytes load as. */
  lemma {:induction false} AcceptedExactly(h: Hashes, pem: bytes, buf: bytes)
    ensures ReadEvidence(h, pem, buf).status == Success <==>
      exists t: nat, q: bytes, c: bytes, ps: seq<Pair> :: Carries(buf, t, q, c) && InOrder(h, pem, t, q, c, ps)
  {
    hide CompareQuote, ClaimOk, PartsOf, ClaimPairs, ReadClaims, Commits, LoadItem, Carries;
    var parts := PartsOf(buf);
    if ReadEvidence(h, pem, buf).status == Success {
      var ps := ClaimPairs(parts.claims).value;
      PartsTagged(buf);
      PartsExact(buf, parts.ctype.value, parts.quote, parts.claims);
      ClaimPairsExact(parts.claims, ps);
      QuoteComparisonExact(h, parts.quote, parts.claims);
      ClaimsExact(h, pem, ps);
      assert InOrder(h, pem, parts.ctype.value, parts.quote, parts.claims, ps);
    }
    if t: nat, q: bytes, c: bytes, ps: seq<Pair> :| Carries(buf, t, q, c) && InOrder(h, pem, t, q, c, ps) {
      AcceptedOutputs(h, pem, buf, t, q, c, ps);
    }
  }

  lemma {:induction false} PartsTagged(buf: bytes)
    ensures PartsOf(buf).Parts? ==> PartsOf(buf).ctype.Some?
  {
    hide LoadItem;
  }

  /** What accepted evidence returns: its tag and quote, and what the claims say. */
  lemma {:induction false} AcceptedOutputs(h: Hashes, pem: bytes, buf: bytes, t: nat, q: bytes, c: bytes, ps: seq<Pair>)
    requires Carries(buf, t, q, c) && InOrder(h, pem, t, q, c, ps)
    ensures var cl := ReadClaims(h, pem, ps);
      ReadEvidence(h, pem, buf) == Evidence(Success, Some(t), Some(q), cl.tpm2, cl.nonce)
  {
    hide CompareQuote, ClaimOk, PartsOf, ClaimPairs, ReadClaims, Commits, LoadItem, Carries;
    PartsExact(buf, t, q, c);
    ClaimPairsExact(c, ps);
    QuoteComparisonExact(h, q, c);
    ClaimsExact(h, pem, ps);
  }

  predicate IsTpm2Claim(p: Pair)
  {
    p.key.TStr? && p.key.ts != [] && KeyMatches(K_TPM2_QUOTE, p.key.ts) && !KeyMatches(K_PUBKEY_HASH, p.key.ts)
    && p.val.BStr?
  }

  predicate IsNonceClaim(p: Pair)
  {
    p.key.TStr? && p.key.ts != [] && KeyMatches(K_NONCE, p.key.ts) && !KeyMatches(K_TPM2_QUOTE, p.key.ts)
    && !KeyMatches(K_PUBKEY_HASH, p.key.ts) && p.val.BStr? && |p.val.bs| == 32
  }

  /** The TPM quote returned is that of the last such claim, empty when that is longer than 1000 bytes. */
  lemma {:induction false} LastTpm2Claim(h: Hashes, pem: bytes, ps: seq<Pair>, i: nat)
    requires ReadClaims(h, pem, ps).status == Success
    requires i < |ps| && IsTpm2Claim(ps[i]) && forall j :: i < j < |ps| ==> !IsTpm2Claim(ps[j])
    ensures ReadClaims(h, pem, ps).tpm2 == if |ps[i].val.bs| <= 1000 then ps[i].val.bs else []
  {
    hide KeyMatches, CompareKey, LoadItem;
    if i < |ps| - 1 { LastTpm2Claim(h, pem, ps[..|ps| - 1], i); }
  }

  /** The nonce returned is that of the last claim with one of 32 bytes. */
  lemma {:induction false} LastNonceClaim(h: Hashes, pem: bytes, ps: seq<Pair>, i: nat)
    requires ReadClaims(h, pem, ps).status == Success
    requires i < |ps| && IsNonceClaim(ps[i]) && forall j :: i < j < |ps| ==> !IsNonceClaim(ps[j])
    ensures ReadClaims(h, pem, ps).nonce == Some(ps[i].val.bs)
  {
    hide KeyMatches, CompareKey, LoadItem;
    if i < |ps| - 1 { LastNonceClaim(h, pem, ps[..|ps| - 1], i); }
  }

  /** Without such claims nothing is returned. */
  lemma {:induction false} ClaimsAbsent(h: Hashes, pem: bytes, ps: seq<Pair>)
    requires ReadClaims(h, pem, ps).status == Success
    ensures (forall i :: 0 <= i < |ps| ==> !IsTpm2Claim(ps[i])) ==> ReadClaims(h, pem, ps).tpm2 == []
    ensures (forall i :: 0 <= i < |ps| ==> !IsNonceClaim(ps[i])) ==> ReadClaims(h, pem, ps).nonce == None
  {
    hide KeyMatches, CompareKey, LoadItem;
    if |ps| > 0 {
      var n := |ps| - 1;
      ClaimsAbsent(h, pem, ps[..n]);
      assert forall i :: 0 <= i < n ==> ps[i] == ps[..n][i];
    }
  }

  // --------------------------------------------------------------- refusal

  /** The status a claim out of order leaves. */
  ghost predicate Faults(h: Hashes, pem: bytes, p: Pair, st: Status)
  {
    if !p.key.TStr? || p.key.ts == [] then st == InvalidExtension
    else if KeyMatches(K_PUBKEY_HASH, p.key.ts) then
      if !p.val.BStr? || LoadItem(p.val.bs).None? then st == InvalidExtension
      else st == CompareKey(h, pem, LoadItem(p.val.bs).value)
    else st == Overrun
  }

  /** Reading stops at the first claim out of order, with its status. */
  lemma {:induction false} FirstFault(h: Hashes, pem: bytes, ps: seq<Pair>, i: nat)
    requires i < |ps| && !ClaimOk(h, pem, ps[i]) && forall k :: 0 <= k < i ==> ClaimOk(h, pem, ps[k])
    ensures Faults(h, pem, ps[i], ReadClaims(h, pem, ps).status)
  {
    hide KeyMatches, CompareKey, EntryBinds, LoadItem;
    LoadEmpty();
    var p := ps[i];
    assert ps[..i + 1][..i] == ps[..i];
    assert forall k :: 0 <= k < i ==> ps[..i][k] == ps[k];
    ClaimsExact(h, pem, ps[..i]);
    if p.val.BStr? && LoadItem(p.val.bs).Some? { KeyComparisonExact(h, pem, LoadItem(p.val.bs).value); }
    ErrorSticks(h, pem, ps, i + 1);
  }

  /** There is no quote of the least size, or no claims. */
  ghost predicate NothingCarried(buf: bytes, t: nat)
  {
    forall q: bytes, c: bytes :: Carries(buf, t, q, c) ==> |q| < 1020 || c == []
  }

  /** The status of every refusal, in the order of the checks, and the tag reported with it. */
  lemma {:induction false} RefusalExact(h: Hashes, pem: bytes, buf: bytes)
    ensures var e, x := ReadEvidence(h, pem, buf), LoadItem(buf);
      && (x.None? ==> e.status == Unexpected && e.ctype == None)
      && (x.Some? && !x.value.Tag? ==> e.status == InvalidExtension && e.ctype == None)
      && (x.Some? && x.value.Tag? ==> e.ctype == Some(x.value.tag))
      && (x.Some? && x.value.Tag? && x.value.tag != 60000 && x.value.tag != 60004 ==> e.status == InvalidExtension)
      && (x.Some? && x.value.Tag? && NothingCarried(buf, x.value.tag) ==> e.status == InvalidExtension)
  {
    hide LoadItem, CompareQuote, ClaimPairs, ReadClaims;
    LoadEmpty();
    if LoadItem(buf).Some? && LoadItem(buf).value.Tag? {
      var y := LoadItem(buf).value.item;
      if y.Array? && |y.items| == 2 && y.items[0].BStr? && y.items[1].BStr? {
        assert y.items == [BStr(y.items[0].bs), BStr(y.items[1].bs)];
        assert Carries(buf, LoadItem(buf).value.tag, y.items[0].bs, y.items[1].bs);
      }
    }
  }

  ghost predicate NoClaimMap(c: bytes) { forall ps: seq<Pair> :: LoadItem(c) == Some(Map(ps)) ==> ps == [] }

  lemma {:induction false} CarriedRefusal(h: Hashes, pem: bytes, buf: bytes, t: nat, q: bytes, c: bytes)
    requires Carries(buf, t, q, c) && (t == 60000 || t == 60004) && |q| >= 1020 && c != []
    ensures var e, kind := ReadEvidence(h, pem, buf), UnLe(q[4..8]);
      && (kind != 0 && kind != 0x81 ==> e.status == Unexpected)
      && ((kind == 0 || kind == 0x81) && !Commits(h, q, c) ==> e.status == InvalidSignature)
      && (Commits(h, q, c) && NoClaimMap(c) ==> e.status == InvalidExtension)
      && (forall ps: seq<Pair> :: Commits(h, q, c) && LoadItem(c) == Some(Map(ps)) && ps != [] ==>
            if ReadClaims(h, pem, ps).status != Success then e.status == ReadClaims(h, pem, ps).status
            else |q| > 8192 ==> e.status == Overrun)
      && (e.status != Success ==> e.quote == None)
  {
    hide LoadItem, ReadClaims, PartsOf, Carries;
    PartsExact(buf, t, q, c);
    QuoteStatus(h, q, c);
  }

  lemma {:induction false} QuoteStatus(h: Hashes, q: bytes, c: bytes)
    requires |q| >= QUOTE_MIN_SIZE
    ensures var st, kind := CompareQuote(h, q, c), UnLe(q[4..8]);
      && (kind != 0 && kind != 0x81 ==> st == Unexpected)
      && (kind == 0 || kind == 0x81 ==> st == if Commits(h, q, c) then Success else InvalidSignature)
  {
    hide UnLe;
  }

  /** Some claim binds the key. */
  ghost predicate NamesKey(h: Hashes, pem: bytes, ps: seq<Pair>)
  {
    exists i :: 0 <= i < |ps| && IsKeyClaim(ps[i]) && BindsKey(h, pem, ps[i])
  }

  /** Accepted evidence names the presented key exactly when it holds a key claim at all. */
  lemma {:induction false} AcceptedNamesKeyExactly(h: Hashes, pem: bytes, buf: bytes, t: nat, q: bytes, c: bytes,
                                                   ps: seq<Pair>)
    requires ReadEvidence(h, pem, buf).status == Success && Carries(buf, t, q, c) && LoadItem(c) == Some(Map(ps))
    ensures NamesKey(h, pem, ps) <==> exists i :: 0 <= i < |ps| && IsKeyClaim(ps[i])
  {
    hide BindsKey, IsKeyClaim, Commits, ReadEvidence, LoadItem;
    AcceptedExactly(h, pem, buf);
    if i :| 0 <= i < |ps| && IsKeyClaim(ps[i]) {
      assert ClaimOk(h, pem, ps[i]);
    }
  }

  function KeylessItem(nonce: bytes): Item { Map([Pair(TStr(K_NONCE), BStr(nonce))]) }

  /** For every presented key, none at all included: evidence whose only claim is a nonce is accepted
      and names no key. */
  lemma {:induction false} KeylessEvidenceAccepted(h: Hashes, pem: bytes, nonce: digest, quote: bytes)
    requires QUOTE_MIN_SIZE <= |quote| <= RAW_QUOTE_MAX_SIZE
    requires Commits(h, quote, Ser(KeylessItem(nonce)))
    ensures var buf := Ser(EvidenceItem(quote, Ser(KeylessItem(nonce)), TAG_TEE_TPM2_QUOTE));
      ReadEvidence(h, pem, buf).status == Success && !NamesKey(h, pem, KeylessItem(nonce).pairs)
  {
    hide LoadItem, Commits, BindsKey, KeyMatches, UnLe;
    KeysApart();
    var ki := KeylessItem(nonce);
    assert Fits(ki.pairs[0].key) && Fits(ki.pairs[0].val);
    assert forall p :: p in ki.pairs ==> p == ki.pairs[0];
    LoadItemInverts(ki);
    KeylessSize(nonce);
    EvidenceParts(quote, ki, TAG_TEE_TPM2_QUOTE);
    assert ClaimOk(h, pem, ki.pairs[0]);
    assert InOrder(h, pem, TAG_TEE_TPM2_QUOTE, quote, Ser(ki), ki.pairs);
    AcceptedExactly(h, pem, Ser(EvidenceItem(quote, Ser(ki), TAG_TEE_TPM2_QUOTE)));
  }

  lemma {:induction false} KeylessSize(nonce: digest)
    ensures |Ser(KeylessItem(nonce))| < TWO64
  {
    var p := KeylessItem(nonce).pairs[0];
    assert |Ser(p.val)| == 34;
    assert |Ser(p.key)| == 6;
    assert KeylessItem(nonce).pairs[1..] == [];
    assert SerPairs(KeylessItem(nonce).pairs) == SerPair(p) + SerPairs([]);
  }

  /** Evidence takes apart into the quote and the claims it was put together from. */
  lemma {:induction false} EvidenceParts(quote: bytes, claims: Item, t: nat)
    requires QUOTE_MIN_SIZE <= |quote| <= RAW_QUOTE_MAX_SIZE && Fits(claims) && |Ser(claims)| < TWO64
    requires t == 60000 || t == 60004
    ensures Carries(Ser(EvidenceItem(quote, Ser(claims), t)), t, quote, Ser(claims))
    ensures PartsOf(Ser(EvidenceItem(quote, Ser(claims), t))) == Parts(Some(t), quote, Ser(claims))
    ensures LoadItem(Ser(claims)) == Some(claims)
    ensures claims.Map? && claims.pairs != [] ==> ClaimPairs(Ser(claims)) == Some(claims.pairs)
  {
    hide Ser, LoadItem;
    LoadItemInverts(claims);
    var ei := EvidenceItem(quote, Ser(claims), t);
    assert forall y :: y in ei.item.items ==> Fits(y);
    LoadItemInverts(ei);
  }

  // ------------------------------------------------------------ round trip

  /** Prefix comparison cannot take one claim key for another. */
  lemma {:induction false} KeysApart()
    ensures KeyMatches(K_PUBKEY_HASH, K_PUBKEY_HASH) && KeyMatches(K_TPM2_QUOTE, K_TPM2_QUOTE)
    ensures KeyMatches(K_NONCE, K_NONCE)
    ensures !KeyMatches(K_PUBKEY_HASH, K_NONCE) && !KeyMatches(K_PUBKEY_HASH, K_TPM2_QUOTE)
    ensures !KeyMatches(K_TPM2_QUOTE, K_NONCE)
  {
    assert K_NONCE[0] != K_PUBKEY_HASH[0] && K_TPM2_QUOTE[0] != K_PUBKEY_HASH[0] && K_NONCE[0] != K_TPM2_QUOTE[0];
  }

  lemma {:induction false} EntryLoads(h: Hashes, der: bytes)
    ensures LoadItem(Ser(EntryItem(h, der))) == Some(EntryItem(h, der))
  {
    hide Ser, LoadItem, Pow256;
    Pow256Values();
    assert forall y :: y in EntryItem(h, der).items ==> Fits(y);
    LoadItemInverts(EntryItem(h, der));
  }

  lemma {:induction false} EntryMatches(h: Hashes, pem: bytes, der: bytes)
    requires KeyOf(pem) == (0, der) && |der| <= PUB_KEY_MAX_SIZE
    ensures LoadItem(Ser(EntryItem(h, der))) == Some(EntryItem(h, der))
    ensures CompareKey(h, pem, EntryItem(h, der)) == Success
  {
    hide Ser, LoadItem, KeyOf;
    EntryLoads(h, der);
  }

  lemma {:induction false} HonestClaims(h: Hashes, pem: bytes, der: bytes, nonce: bytes, tpm2: bytes)
    requires KeyOf(pem) == (0, der) && |der| <= PUB_KEY_MAX_SIZE
    requires |nonce| == 32 && |tpm2| <= MAXSIZE_SER_TPM2_QUOTE
    ensures ReadClaims(h, pem, ClaimsItem(h, der, nonce, tpm2).pairs) == Claims(Success, tpm2, Some(nonce))
  {
    hide Ser, LoadItem, KeyOf, KeyMatches, CompareKey;
    KeysApart();
    EntryMatches(h, pem, der);
    var ps := ClaimsItem(h, der, nonce, tpm2).pairs;
    assert ps[..2][..1] == ps[..1] && ps[..1][..0] == [];
    var c0 := Claims(Success, [], None);
    assert ReadClaims(h, pem, ps[..0]) == c0;
    assert ReadClaims(h, pem, ps[..1]) == ReadClaim(h, pem, c0, ps[0]) == c0;
    assert ReadClaims(h, pem, ps[..2]) == ReadClaim(h, pem, c0, ps[1]);
  }

  lemma {:induction false} EntrySize(h: Hashes, der: bytes)
    ensures |Ser(EntryItem(h, der))| == 36
  {
    var xs := EntryItem(h, der).items;
    assert xs[1..][1..] == [] && xs[1..][0] == xs[1];
    assert SerItems(xs) == Ser(xs[0]) + (Ser(xs[1]) + SerItems([]));
    assert |Ser(xs[0])| == 1;
    assert |Ser(xs[1])| == 34;
  }

  lemma {:induction false} StringSize(major: nat, s: bytes)
    requires major < 8 && |s| < 0x1_0000
    ensures |SerHead(major, |s|)| <= 3
  {}

  lemma {:induction false} PairSize(key: cstring, val: bytes)
    requires |key| < 0x1_0000 && |val| < 0x1_0000
    ensures |SerPair(Pair(TStr(key), BStr(val)))| <= |key| + |val| + 6
  {
    hide SerHead;
    StringSize(3, key);
    StringSize(2, val);
  }

  /** Claims are small. */
  lemma {:induction false} ClaimsSize(h: Hashes, der: bytes, nonce: bytes, tpm2: bytes)
    requires |nonce| == 32 && |tpm2| <= MAXSIZE_SER_TPM2_QUOTE
    ensures |Ser(ClaimsItem(h, der, nonce, tpm2))| < TWO64
  {
    hide SerHead, SerPair, EntryItem;
    EntrySize(h, der);
    var ps := ClaimsItem(h, der, nonce, tpm2).pairs;
    assert ps[1..][0] == ps[1] && ps[1..][1..] == ps[2..] && ps[2..][0] == ps[2] && ps[2..][1..] == [];
    assert SerPairs(ps[2..]) == SerPair(ps[2]) + SerPairs([]);
    assert SerPairs(ps[1..]) == SerPair(ps[1]) + SerPairs(ps[2..]);
    assert SerPairs(ps) == SerPair(ps[0]) + SerPairs(ps[1..]);
    PairSize(K_PUBKEY_HASH, Ser(EntryItem(h, der)));
    PairSize(K_NONCE, nonce);
    PairSize(K_TPM2_QUOTE, tpm2);
    StringSize(5, [0, 0, 0]);
  }

  lemma {:induction false} HonestParts(h: Hashes, der: bytes, nonce: bytes, tpm2: bytes, quote: bytes)
    requires QUOTE_MIN_SIZE <= |quote| <= RAW_QUOTE_MAX_SIZE
    requires |nonce| == 32 && |tpm2| <= MAXSIZE_SER_TPM2_QUOTE
    ensures var ci := ClaimsItem(h, der, nonce, tpm2);
      Carries(Ser(EvidenceItem(quote, Ser(ci), 60004)), 60004, quote, Ser(ci)) && LoadItem(Ser(ci)) == Some(ci)
      && PartsOf(Ser(EvidenceItem(quote, Ser(ci), TAG_TEE_TPM2_QUOTE)))
        == Parts(Some(TAG_TEE_TPM2_QUOTE), quote, Ser(ci))
      && ClaimPairs(Ser(ci)) == Some(ci.pairs)
  {
    hide Ser, LoadItem;
    var ci := ClaimsItem(h, der, nonce, tpm2);
    EntrySize(h, der);
    ClaimsSize(h, der, nonce, tpm2);
    assert forall p :: p in ci.pairs ==> Fits(p.key) && Fits(p.val);
    EvidenceParts(quote, ci, TAG_TEE_TPM2_QUOTE);
  }

  /** Evidence made for one key is not accepted with another, short of a hash collision. */
  lemma {:induction false} OtherKeyRefused(h: Hashes, pem: bytes, der: bytes, nonce: bytes, tpm2: bytes, quote: bytes)
    requires QUOTE_MIN_SIZE <= |quote| <= RAW_QUOTE_MAX_SIZE
    requires |nonce| == 32 && |tpm2| <= MAXSIZE_SER_TPM2_QUOTE
    requires var buf := Ser(EvidenceItem(quote, Ser(ClaimsItem(h, der, nonce, tpm2)), TAG_TEE_TPM2_QUOTE));
      ReadEvidence(h, pem, buf).status == Success
    ensures KeyOf(pem).0 == 0
    ensures KeyOf(pem).1 == der || (KeyOf(pem).1 != der && h.h256(KeyOf(pem).1) == h.h256(der))
  {
    hide Ser, LoadItem, KeyOf, KeyMatches, PartsOf, ClaimPairs, Commits, ReadEvidence;
    var ci := ClaimsItem(h, der, nonce, tpm2);
    KeysApart();
    HonestParts(h, der, nonce, tpm2, quote);
    AcceptedExactly(h, pem, Ser(EvidenceItem(quote, Ser(ci), TAG_TEE_TPM2_QUOTE)));
    assert ClaimOk(h, pem, ci.pairs[0]);
    EntryLoads(h, der);
    var w: nat, alg: nat :| EntryItem(h, der) == Array([UInt(w, alg), BStr(HashBy(h, alg, KeyOf(pem).1))])
                            && (alg == 1 || alg == 7 || alg == 8);
    assert EntryItem(h, der).items[0] == UInt(w, alg);
    assert EntryItem(h, der).items[1] == BStr(HashBy(h, alg, KeyOf(pem).1));
  }

  /** What the enclave builds, the verifier accepts, and it returns the same quote, TPM quote and
      nonce: for every key, every way its PEM text is laid out, and every SGX-type quote whose report
      data starts with the hash of the claims. */
  method EvidenceRoundTrip(h: Hashes, pem: bytes, der: bytes, nonce: bytes, tpm2: bytes, quote: bytes,
                           ghost header: bytes, ghost sep1: bytes, ghost body: bytes,
                           ghost sep2: bytes, ghost footer: bytes, ghost tail: bytes)
    returns (e: Evidence)
    requires PemOf(pem, der, header, sep1, body, sep2, footer, tail) && 0 < |der| <= PUB_KEY_MAX_SIZE
    requires |nonce| == 32 && 0 < |tpm2| <= MAXSIZE_SER_TPM2_QUOTE
    requires QUOTE_MIN_SIZE <= |quote| <= RAW_QUOTE_MAX_SIZE
    requires UnLe(quote[4..8]) == 0
    requires quote[368..400] == h.h256(Ser(ClaimsItem(h, der, nonce, tpm2)))
    ensures e == Evidence(Success, Some(TAG_TEE_TPM2_QUOTE), Some(quote), tpm2, Some(nonce))
  {
    hide Ser, LoadItem, PartsOf, ClaimPairs, ReadClaims, KeyOf, Stripped, PemDecode, UnLe;
    var claims := MakeClaims(h, der, nonce, tpm2);
    var evidence := MakeEvidence(quote, claims, TAG_TEE_TPM2_QUOTE);
    KeyDecodes(pem, der, header, sep1, body, sep2, footer, tail);
    HonestParts(h, der, nonce, tpm2, quote);
    HonestClaims(h, pem, der, nonce, tpm2);
    e := ExtractEvidence(h, pem, evidence);
  }

  /** make_cbor_sgx_claims */
  method MakeSgxClaims(h: Hashes, der: bytes) returns (claims: bytes)
    ensures claims == Ser(SgxClaimsItem(h, der))
  {
    var hash := Ser(Array([UInt(1, ALG_SHA256), BStr(h.h256(der))]));
    claims := Ser(Map([Pair(TStr(K_PUBKEY_HASH), BStr(hash))]));
  }

  function SgxClaimsItem(h: Hashes, der: bytes): Item
  {
    Map([Pair(TStr(K_PUBKEY_HASH), BStr(Ser(EntryItem(h, der))))])
  }

  lemma {:induction false} SgxClaims(h: Hashes, pem: bytes, der: bytes)
    requires KeyOf(pem) == (0, der) && |der| <= PUB_KEY_MAX_SIZE
    ensures |Ser(SgxClaimsItem(h, der))| < TWO64 && Fits(SgxClaimsItem(h, der))
    ensures ReadClaims(h, pem, SgxClaimsItem(h, der).pairs) == Claims(Success, [], None)
    ensures ClaimOk(h, pem, SgxClaimsItem(h, der).pairs[0])
  {
    hide LoadItem, KeyOf, KeyMatches, CompareKey, SerHead, SerPair, EntryItem;
    KeysApart();
    EntryMatches(h, pem, der);
    EntrySize(h, der);
    var ps := SgxClaimsItem(h, der).pairs;
    PairSize(K_PUBKEY_HASH, Ser(EntryItem(h, der)));
    StringSize(5, [0]);
    assert ps[1..] == [] && SerPairs(ps) == SerPair(ps[0]) + SerPairs([]);
    assert forall p :: p in ps ==> p == ps[0];
    assert Fits(ps[0].key) && Fits(ps[0].val);
    assert ps[..0] == [];
    assert ReadClaims(h, pem, ps[..0]) == Claims(Success, [], None);
    ClaimsExact(h, pem, ps);
  }

  /** The same without a TPM quote: tag 60000 and a key claim alone. */
  method SgxEvidenceRoundTrip(h: Hashes, pem: bytes, der: bytes, quote: bytes,
                              ghost header: bytes, ghost sep1: bytes, ghost body: bytes,
                              ghost sep2: bytes, ghost footer: bytes, ghost tail: bytes)
    returns (e: Evidence)
    requires PemOf(pem, der, header, sep1, body, sep2, footer, tail) && 0 < |der| <= PUB_KEY_MAX_SIZE
    requires QUOTE_MIN_SIZE <= |quote| <= RAW_QUOTE_MAX_SIZE
    requires UnLe(quote[4..8]) == 0 && quote[368..400] == h.h256(Ser(SgxClaimsItem(h, der)))
    ensures e == Evidence(Success, Some(60000), Some(quote), [], None)
  {
    hide Ser, LoadItem, PartsOf, ClaimPairs, ReadClaims, KeyOf, Stripped, PemDecode, UnLe, ClaimOk, Carries;
    var claims := MakeSgxClaims(h, der);
    var evidence := MakeEvidence(quote, claims, TAG_TEE_QUOTE);
    KeyDecodes(pem, der, header, sep1, body, sep2, footer, tail);
    SgxClaims(h, pem, der);
    EvidenceParts(quote, SgxClaimsItem(h, der), TAG_TEE_QUOTE);
    AcceptedOutputs(h, pem, evidence, TAG_TEE_QUOTE, quote, claims, SgxClaimsItem(h, der).pairs);
    e := ExtractEvidence(h, pem, evidence);
  }

  lemma {:induction false} ClaimKeyTexts()
    ensures K_PUBKEY_HASH == Ascii("pubkey-hash") && K_TPM2_QUOTE == Ascii("tpm2-quote") && K_NONCE == Ascii("nonce")
  {}

  /** Claims and evidence on the wire. */
  lemma {:induction false} EvidenceLayout(h: Hashes, der: bytes, nonce: bytes, tpm2: bytes, quote: bytes, claims: bytes)
    ensures EntryItem(h, der) == Array([UInt(1, 1), BStr(h.h256(der))])
    ensures ClaimsItem(h, der, nonce, tpm2)
         == Map([Pair(TStr(Ascii("pubkey-hash")), BStr(Ser(EntryItem(h, der)))),
                 Pair(TStr(Ascii("nonce")), BStr(nonce)), Pair(TStr(Ascii("tpm2-quote")), BStr(tpm2))])
    ensures EvidenceItem(quote, claims, 60004) == Tag(60004, Array([BStr(quote), BStr(claims)]))
  {
    ClaimKeyTexts();
    hide Ascii, Ser;
  }

  lemma {:induction false} KeyDecodes(pem: bytes, der: bytes, header: bytes, sep1: bytes, body: bytes,
                                      sep2: bytes, footer: bytes, tail: bytes)
    requires PemOf(pem, der, header, sep1, body, sep2, footer, tail) && der != []
    ensures KeyOf(pem) == (0, der)
  {
    hide Stripped, PemDecode;
    PemInverts(pem, der, header, sep1, body, sep2, footer, tail);
    assert |pem| > 0 by { assert |sep1| > 0; }
  }
}

// Attester daemon and verifier: the reply that carries a TPM quote and the measured chain, how the
// verifier reads it, and what its freshness test guarantees over whole runs.
//
// SHA-256 is an arbitrary function `sha` into 32 bytes; no injectivity is assumed.  The TPM and
// its signature check appear as `extra` (the extraData of a quote blob) and, inside the key file, as
// the outcome of verify_tpm2_quote on a blob and a signature.
module Attest {
  import opened Bytes
  import opened ProcTable
  import opened Cbor
  import opened Measure
  import opened Processes
  import opened ProcChain

  const K_TPM2_QUOTE: cstring := [116, 112, 109, 50, 95, 113, 117, 111, 116, 101] // "tpm2_quote"
  const K_PICA: cstring := [112, 105, 99, 97]                                     // "pica"
  const K_QUOTE: cstring := [113, 117, 111, 116, 101]                             // "quote"
  const K_SIGN: cstring := [115, 105, 103, 110]                                   // "sign"
  const K_APP_HASH: cstring := [97, 112, 112, 45, 104, 97, 115, 104]              // "app-hash"

  const QUOTE_BUFFER: nat := 2048

  type Hash = bytes -> digest

  /** hash_extend_sha256 */
  function Extend(sha: Hash, old_hash: digest, d: digest): digest { sha(old_hash + d) }

  // ---------------------------------------------------------------- daemon

  function QuoteItem(blob: bytes, sign: bytes, appHash: digest): Item
  {
    Map([Pair(TStr(K_QUOTE), BStr(blob)), Pair(TStr(K_SIGN), BStr(sign)), Pair(TStr(K_APP_HASH), BStr(appHash))])
  }

  function ReplyItem(quoteSer: bytes, chain: bytes): Item
  {
    Map([Pair(TStr(K_TPM2_QUOTE), BStr(quoteSer)), Pair(TStr(K_PICA), BStr(chain))])
  }

  function Reply(sha: Hash, blob: bytes, sign: bytes, chain: bytes): bytes
  {
    Ser(ReplyItem(Ser(QuoteItem(blob, sign, sha(chain))), chain))
  }

  /** make_tpm2_pica and reply_pica: the chain is packed, hashed, extended with the nonce and quoted;
      `quote` is the TPM.  A quote too large for the daemon's buffer would not be copied into it. */
  method ServePica(sha: Hash, quote: digest -> (bytes, bytes), nonce: digest,
                   tab: FpTable, world: map<word, Process>, pid: word, ghost n: nat)
    returns (reply: bytes)
    requires tab.Valid() && Ancestry(world, pid, n)
    requires forall d, h :: |Ser(QuoteItem(quote(d).0, quote(d).1, h))| <= QUOTE_BUFFER
    modifies tab, tab.nodes
    ensures tab.Valid() && fresh(tab.nodes - old(tab.nodes))
    ensures tab.cache == CacheBehind(world, old(tab.cache), pid, n)
    ensures var chain := Ser(ChainItem(Chain(world, old(tab.cache), pid, n)));
      var (blob, sign) := quote(Extend(sha, sha(chain), nonce));
      reply == Reply(sha, blob, sign, chain)
  {
    hide FpTable.Valid, Ser, Chain, CacheBehind;
    var procchain := PackProcChain(tab, world, pid, n);
    var hash := sha(procchain);
    var newhash := Extend(sha, hash, nonce);
    var (q, s) := quote(newhash);
    var quoteSer := Ser(QuoteItem(q, s, hash));
    reply := Ser(ReplyItem(quoteSer, procchain));
  }

  // -------------------------------------------------------------- verifier

  /** verify_tpm2_quote: its return code, and the extraData it copies out when it gets that far. */
  datatype Checked = Checked(rc: int, udata: Option<digest>)

  /** The attestation key file: empty, not a key, or a key.  All "sign" values are unmarshalled, in
      order, into one signature structure, whether that succeeds or not; so what is verified with a
      key is a blob and the list of these values. */
  datatype AkFile = NoKey | BadKey | Key(verify: (bytes, seq<bytes>) -> Checked)

  /** What handle_tpm2_quote leaves behind. `Wild` is an input on which the C code follows NULL,
      overruns a buffer, reads an item as the wrong type or uses a signature it never touched. */
  datatype QuoteRead = Wild | QuoteRead(rc: int, capphash: digest, udata: Option<digest>)

  /** The pairs of a serialized map, of definite or indefinite length. */
  function MapPairs(ser: bytes): Option<seq<Pair>>
  {
    match LoadItem(ser) { case Some(x) => PairsOf(x) case None => None }
  }

  datatype Kind = KQuote | KSign | KAppHash | KOther

  /** The dispatch on a pair's key; unknown keys and keys that are not text are passed over. */
  function KindOf(p: Pair): Kind
  {
    if !p.key.TStr? then KOther
    else if KeyMatches(K_QUOTE, p.key.ts) then KQuote
    else if KeyMatches(K_SIGN, p.key.ts) then KSign
    else if KeyMatches(K_APP_HASH, p.key.ts) then KAppHash
    else KOther
  }

  predicate PairOk(p: Pair)
  {
    match KindOf(p)
    case KOther => !ChunkedText(p.key)
    case KAppHash => p.val.BStr? && |p.val.bs| <= 32
    case _ => p.val.BStr?
  }

  /** The value of the last pair of a kind. */
  function LastBytes(ps: seq<Pair>, kd: Kind): Option<bytes>
  {
    if |ps| == 0 then None
    else
      var p := ps[|ps| - 1];
      if KindOf(p) == kd && p.val.BStr? then Some(p.val.bs) else LastBytes(ps[..|ps| - 1], kd)
  }

  /** The values of all pairs of a kind, in order. */
  function AllBytes(ps: seq<Pair>, kd: Kind): seq<bytes>
  {
    if |ps| == 0 then []
    else
      var p, before := ps[|ps| - 1], AllBytes(ps[..|ps| - 1], kd);
      if KindOf(p) == kd && p.val.BStr? then before + [p.val.bs] else before
  }

  /** The claimed hash: values are copied over each other from the first byte on. */
  function ClaimedHash(ps: seq<Pair>): digest
  {
    if |ps| == 0 then ZeroDigest()
    else
      var p, before := ps[|ps| - 1], ClaimedHash(ps[..|ps| - 1]);
      if KindOf(p) == KAppHash && PairOk(p) then p.val.bs + before[|p.val.bs|..] else before
  }

  function Judged(ak: AkFile, quote: Option<bytes>, signs: seq<bytes>, capphash: digest): QuoteRead
  {
    if quote.None? || ak.NoKey? then QuoteRead(0, capphash, None)
    else if ak.BadKey? then QuoteRead(-1, capphash, None)
    else if signs == [] then Wild
    else
      var c := ak.verify(quote.value, signs);
      QuoteRead(c.rc, capphash, c.udata)
  }

  function ReadQuote(ak: AkFile, ser: bytes): QuoteRead
  {
    match LoadItem(ser)
    case None => Wild
    case Some(x) =>
      if PairsOf(x).None? then QuoteRead(-1, ZeroDigest(), None)
      else if |x.pairs| != 3 then QuoteRead(0, ZeroDigest(), None)
      else if exists i :: 0 <= i < |x.pairs| && !PairOk(x.pairs[i]) then Wild
      else Judged(ak, LastBytes(x.pairs, KQuote), AllBytes(x.pairs, KSign), ClaimedHash(x.pairs))
  }

  /** handle_tpm2_quote */
  method HandleTpm2Quote(ak: AkFile, ser: bytes) returns (r: QuoteRead)
    ensures r == ReadQuote(ak, ser)
  {
    hide KeyMatches, LoadItem;
    var cmap := LoadItem(ser);
    if cmap.None? { return Wild; }
    if PairsOf(cmap.value).None? { return QuoteRead(-1, ZeroDigest(), None); }
    var ps := cmap.value.pairs;
    if |ps| != 3 { return QuoteRead(0, ZeroDigest(), None); }
    var quote: Option<bytes>, signs: seq<bytes>, capphash := None, [], ZeroDigest();
    assert ps[..0] == [];
    for i := 0 to |ps|
      invariant forall k :: 0 <= k < i ==> PairOk(ps[k])
      invariant quote == LastBytes(ps[..i], KQuote) && signs == AllBytes(ps[..i], KSign)
      invariant capphash == ClaimedHash(ps[..i])
    {
      var key, val := ps[i].key, ps[i].val;
      assert ps[..i + 1][..i] == ps[..i] && ps[..i + 1][i] == ps[i];
      if key.TStr? {
        if KeyMatches(K_QUOTE, key.ts) {
          if !val.BStr? { assert !PairOk(ps[i]); return Wild; }
          quote := Some(val.bs);
        } else if KeyMatches(K_SIGN, key.ts) {
          if !val.BStr? { assert !PairOk(ps[i]); return Wild; }
          signs := signs + [val.bs];
        } else if KeyMatches(K_APP_HASH, key.ts) {
          if !val.BStr? || |val.bs| > 32 { assert !PairOk(ps[i]); return Wild; }
          capphash := val.bs + capphash[|val.bs|..];
        }
      } else if ChunkedText(key) {
        assert !PairOk(ps[i]);
        return Wild;
      }
    }
    assert ps[..|ps|] == ps;
    if quote.None? { return QuoteRead(0, capphash, None); }
    match ak
    case NoKey => r := QuoteRead(0, capphash, None);
    case BadKey => r := QuoteRead(-1, capphash, None);
    case Key(verify) =>
      if signs == [] { return Wild; }
      var c := verify(quote.value, signs);
      r := QuoteRead(c.rc, capphash, c.udata);
  }

  // ------------------------------------------- what the quote bit stands for

  ghost predicate LastOf(ps: seq<Pair>, kd: Kind, i: nat)
  {
    i < |ps| && KindOf(ps[i]) == kd && forall j :: i < j < |ps| ==> KindOf(ps[j]) != kd
  }

  /** Among repeated keys the last one counts. */
  lemma {:induction false} LastKeyWins(ps: seq<Pair>, kd: Kind, i: nat)
    requires LastOf(ps, kd, i) && ps[i].val.BStr?
    ensures LastBytes(ps, kd) == Some(ps[i].val.bs)
  {
    hide KindOf;
    if i < |ps| - 1 { LastKeyWins(ps[..|ps| - 1], kd, i); }
  }

  lemma {:induction false} NoSuchKey(ps: seq<Pair>, kd: Kind)
    requires forall i :: 0 <= i < |ps| ==> KindOf(ps[i]) != kd
    ensures LastBytes(ps, kd).None?
  {
    if |ps| > 0 { NoSuchKey(ps[..|ps| - 1], kd); }
  }

  lemma {:induction false} LastOfExists(ps: seq<Pair>, kd: Kind, i: nat) returns (j: nat)
    requires i < |ps| && KindOf(ps[i]) == kd
    ensures LastOf(ps, kd, j)
    decreases |ps| - i
  {
    if k :| i < k < |ps| && KindOf(ps[k]) == kd { j := LastOfExists(ps, kd, k); } else { j := i; }
  }

  lemma {:induction false} LastOfUnique(ps: seq<Pair>, kd: Kind, i: nat, j: nat)
    requires LastOf(ps, kd, i) && LastOf(ps, kd, j)
    ensures i == j
  {}

  /** Each byte of the claimed hash comes from the last value that is long enough to hold it. */
  lemma {:induction false} ClaimedByte(ps: seq<Pair>, k: nat)
    requires k < 32 && forall i :: 0 <= i < |ps| ==> PairOk(ps[i])
    ensures forall i: nat :: ClaimsByte(ps, i, k) && (forall j :: i < j < |ps| ==> !ClaimsByte(ps, j, k))
              ==> ClaimedHash(ps)[k] == ps[i].val.bs[k]
    ensures (forall i: nat :: !ClaimsByte(ps, i, k)) ==> ClaimedHash(ps)[k] == 0
  {
    if |ps| > 0 {
      var n := |ps| - 1;
      var front := ps[..n];
      ClaimedByte(front, k);
      assert forall i: nat :: i < n ==> (ClaimsByte(ps, i, k) <==> ClaimsByte(front, i, k));
      assert !ClaimsByte(ps, n, k) ==> ClaimedHash(ps)[k] == ClaimedHash(front)[k];
    }
  }

  ghost predicate ClaimsByte(ps: seq<Pair>, i: nat, k: nat)
  {
    i < |ps| && KindOf(ps[i]) == KAppHash && ps[i].val.BStr? && k < |ps[i].val.bs|
  }

  /** No signature check is made at all: a map of other than three entries, no key that matches
      "quote", or an empty key file. */
  ghost predicate Unasked(ak: AkFile, ser: bytes)
  {
    MapPairs(ser).Some?
    && var ps := MapPairs(ser).value;
       |ps| != 3 || ak.NoKey? || forall i :: 0 <= i < |ps| ==> KindOf(ps[i]) != KQuote
  }

  /** The check was made on the last "quote" value and all "sign" values, with this outcome. */
  ghost predicate CheckedAs(ak: AkFile, ser: bytes, c: Checked)
  {
    ak.Key? && MapPairs(ser).Some?
    && var ps := MapPairs(ser).value;
       |ps| == 3 && AllBytes(ps, KSign) != [] && exists i: nat ::
         LastOf(ps, KQuote, i) && ps[i].val.BStr? && ak.verify(ps[i].val.bs, AllBytes(ps, KSign)) == c
  }

  ghost predicate Vouched(ak: AkFile, ser: bytes) { exists c: Checked :: CheckedAs(ak, ser, c) && c.rc == 0 }

  /** Return code 0 means that the check returned 0 or was not made, so it implies the former exactly
      when a check is made; extraData always comes from a check. */
  lemma {:induction false} QuoteBitExact(ak: AkFile, ser: bytes)
    requires ReadQuote(ak, ser).QuoteRead?
    ensures var q := ReadQuote(ak, ser);
      && (q.rc == 0 <==> Unasked(ak, ser) || Vouched(ak, ser))
      && ((q.rc == 0 ==> Vouched(ak, ser)) <==> !Unasked(ak, ser))
      && (q.udata.Some? ==> CheckedAs(ak, ser, Checked(q.rc, q.udata)))
  {
    hide KeyMatches, ClaimedHash;
    if MapPairs(ser).Some? && |MapPairs(ser).value| == 3 {
      var ps := MapPairs(ser).value;
      if i: nat :| i < |ps| && KindOf(ps[i]) == KQuote {
        var q := LastOfExists(ps, KQuote, i);
        LastKeyWins(ps, KQuote, q);
        if ak.Key? && AllBytes(ps, KSign) != [] { CheckOutcome(ak, ser, ps, q); }
      } else {
        NoSuchKey(ps, KQuote);
      }
    }
  }

  lemma {:induction false} CheckOutcome(ak: AkFile, ser: bytes, ps: seq<Pair>, q: nat)
    requires ak.Key? && MapPairs(ser) == Some(ps) && |ps| == 3 && AllBytes(ps, KSign) != []
    requires LastOf(ps, KQuote, q) && ps[q].val.BStr?
    ensures forall c :: CheckedAs(ak, ser, c) <==> c == ak.verify(ps[q].val.bs, AllBytes(ps, KSign))
  {
    hide KindOf, AllBytes;
    forall i: nat | LastOf(ps, KQuote, i) ensures i == q { LastOfUnique(ps, KQuote, i, q); }
  }

  /** A pair that makes handle_tpm2_quote leave its data, spelt out. */
  ghost predicate OddPair(p: Pair)
  {
    || ChunkedText(p.key)
    || (p.key.TStr? && (KeyMatches(K_QUOTE, p.key.ts) || KeyMatches(K_SIGN, p.key.ts)) && !p.val.BStr?)
    || (p.key.TStr? && !KeyMatches(K_QUOTE, p.key.ts) && !KeyMatches(K_SIGN, p.key.ts)
        && KeyMatches(K_APP_HASH, p.key.ts) && !(p.val.BStr? && |p.val.bs| <= 32))
  }

  /** When handle_tpm2_quote leaves its own data: no CBOR; in a map of three an odd pair, or a quote to
      verify with a signature structure no value was unmarshalled into. */
  lemma {:induction false} WildExact(ak: AkFile, ser: bytes)
    ensures ReadQuote(ak, ser).Wild? <==>
      || LoadItem(ser).None?
      || (MapPairs(ser).Some?
          && var ps := MapPairs(ser).value;
             |ps| == 3
             && (|| (exists i :: 0 <= i < |ps| && OddPair(ps[i]))
                 || (ak.Key? && (exists i :: 0 <= i < |ps| && KindOf(ps[i]) == KQuote)
                     && forall i :: 0 <= i < |ps| ==> KindOf(ps[i]) != KSign)))
  {
    hide KeyMatches, ClaimedHash, LoadItem;
    if MapPairs(ser).Some? && |MapPairs(ser).value| == 3 {
      var ps := MapPairs(ser).value;
      forall i | 0 <= i < |ps| ensures PairOk(ps[i]) <==> !OddPair(ps[i]) {}
      if forall i :: 0 <= i < |ps| ==> PairOk(ps[i]) {
        if i: nat :| i < |ps| && KindOf(ps[i]) == KQuote {
          var q := LastOfExists(ps, KQuote, i);
          LastKeyWins(ps, KQuote, q);
        } else {
          NoSuchKey(ps, KQuote);
        }
        AllBytesEmpty(ps, KSign);
      }
    }
  }

  lemma {:induction false} AllBytesEmpty(ps: seq<Pair>, kd: Kind)
    requires forall i :: 0 <= i < |ps| && KindOf(ps[i]) == kd ==> ps[i].val.BStr?
    ensures AllBytes(ps, kd) == [] <==> forall i :: 0 <= i < |ps| ==> KindOf(ps[i]) != kd
  {
    hide KindOf;
    if |ps| > 0 {
      var n := |ps| - 1;
      AllBytesEmpty(ps[..n], kd);
      assert forall i :: 0 <= i < n ==> ps[i] == ps[..n][i];
    }
  }

  lemma {:induction false} AllBytesOne(p: Pair, kd: Kind)
    ensures AllBytes([p], kd) == if KindOf(p) == kd && p.val.BStr? then [p.val.bs] else []
  {
    hide KindOf;
    assert [p][..0] == [];
  }

  /** The values are collected in the order of the pairs, each once. */
  lemma {:induction false} AllBytesInOrder(a: seq<Pair>, b: seq<Pair>, kd: Kind)
    ensures AllBytes(a + b, kd) == AllBytes(a, kd) + AllBytes(b, kd)
    decreases |b|
  {
    hide KindOf;
    if |b| == 0 {
      assert a + b == a;
    } else {
      AllBytesInOrder(a, b[..|b| - 1], kd);
      assert (a + b)[..|a + b| - 1] == a + b[..|b| - 1];
    }
  }

  /** A key that is a beginning of one of the three names, the empty key being one of "quote". */
  lemma {:induction false} ShortKeys(ts: bytes, val: Item)
    ensures ts <= Ascii("quote") ==> KindOf(Pair(TStr(ts), val)) == KQuote
    ensures ts != [] && ts <= Ascii("sign") ==> KindOf(Pair(TStr(ts), val)) == KSign
    ensures ts != [] && ts <= Ascii("app-hash") ==> KindOf(Pair(TStr(ts), val)) == KAppHash
  {
    assert K_QUOTE == Ascii("quote") && K_SIGN == Ascii("sign") && K_APP_HASH == Ascii("app-hash");
    assert K_SIGN[0] != K_QUOTE[0] && K_APP_HASH[0] != K_QUOTE[0] && K_APP_HASH[0] != K_SIGN[0];
    assert ts != [] && ts <= K_SIGN ==> ts[0] == K_SIGN[0];
    assert ts != [] && ts <= K_APP_HASH ==> ts[0] == K_APP_HASH[0];
    FirstByteTells(K_QUOTE, ts);
    FirstByteTells(K_SIGN, ts);
  }

  lemma {:induction false} FirstByteTells(lit: cstring, key: bytes)
    requires lit != []
    ensures key != [] && key[0] != lit[0] ==> !KeyMatches(lit, key)
  {
    assert key != [] && key <= lit ==> key[0] == lit[0];
    assert |key| > |lit| && key[..|lit|] == lit ==> key[0] == key[..|lit|][0] == lit[0];
  }

  // ------------------------------------------------------------- the reply

  /** Everything main collects from a reply before it compares hashes. Rejected: main gives up.
      OutOfBounds: the C code leaves its own data, as in `Wild`. */
  datatype Exam =
    | Rejected
    | OutOfBounds
    | Exam(quoteBit: bool, quote: Option<QuoteRead>, pica: Option<bytes>)

  predicate IsQuote(p: Pair) { p.key.TStr? && KeyMatches(K_TPM2_QUOTE, p.key.ts) }

  predicate IsPica(p: Pair) { p.key.TStr? && !KeyMatches(K_TPM2_QUOTE, p.key.ts) && KeyMatches(K_PICA, p.key.ts) }

  predicate PairDefined(ak: AkFile, p: Pair)
  {
    if ChunkedText(p.key) then false
    else if IsQuote(p) then p.val.BStr? && ReadQuote(ak, p.val.bs).QuoteRead?
    else IsPica(p) ==> p.val.BStr? && !Extract(p.val.bs).Undefined?
  }

  function ExamPair(ak: AkFile, e: Exam, p: Pair): Exam
  {
    if !e.Exam? then e
    else if !PairDefined(ak, p) then OutOfBounds
    else if IsQuote(p) then
      var q := ReadQuote(ak, p.val.bs);
      Exam(e.quoteBit || q.rc == 0, Some(q), e.pica)
    else if IsPica(p) then e.(pica := Some(p.val.bs))
    else e
  }

  function ExamPairs(ak: AkFile, ps: seq<Pair>): Exam
  {
    if |ps| == 0 then Exam(false, None, None) else ExamPair(ak, ExamPairs(ak, ps[..|ps| - 1]), ps[|ps| - 1])
  }

  function Examine(ak: AkFile, reply: bytes): Exam
  {
    match MapPairs(reply)
    case Some(ps) => if |ps| != 2 then Rejected else ExamPairs(ak, ps)
    case None => Rejected
  }

  /** VERIFY_TPM2_FRESH: recomputed hash equals the quoted one, and the claimed one is the chain's. */
  predicate IsFresh(sha: Hash, nonce: digest, e: Exam)
  {
    e.Exam? && e.pica.Some? && e.quote.Some? && e.quote.value.QuoteRead?
    && var picahash := sha(e.pica.value);
       Some(Extend(sha, picahash, nonce)) == e.quote.value.udata && e.quote.value.capphash == picahash
  }

  /** The reply loop and the hash comparison of main; `table` is the last chain extracted. */
  method CheckReply(sha: Hash, ak: AkFile, nonce: digest, reply: bytes)
    returns (e: Exam, quoteBit: bool, freshBit: bool, table: Extracted)
    ensures e == Examine(ak, reply)
    ensures quoteBit <==> e.Exam? && e.quoteBit
    ensures freshBit <==> IsFresh(sha, nonce, e)
    ensures e.Exam? && e.pica.Some? ==> table == Extract(e.pica.value)
  {
    hide KeyMatches, ReadQuote, Extract;
    quoteBit, freshBit, table := false, false, Refused;
    var cmap := LoadItem(reply);
    if cmap.None? || PairsOf(cmap.value).None? || |cmap.value.pairs| != 2 { return Rejected, false, false, Refused; }
    var ps := cmap.value.pairs;
    e := Exam(false, None, None);
    var picahash, apphash := ZeroDigest(), ZeroDigest();
    assert ps[..0] == [];
    for i := 0 to |ps|
      invariant e == ExamPairs(ak, ps[..i]) && !e.Rejected?
      invariant quoteBit <==> e.Exam? && e.quoteBit
      invariant e.Exam? && e.pica.Some? ==>
        picahash == sha(e.pica.value) && apphash == Extend(sha, picahash, nonce) && table == Extract(e.pica.value)
      invariant e.Exam? && e.quote.Some? ==> e.quote.value.QuoteRead?
    {
      var key, val := ps[i].key, ps[i].val;
      assert ps[..i + 1][..i] == ps[..i];
      if e.Exam? && ChunkedText(key) {
        e, quoteBit := OutOfBounds, false;
      } else if e.Exam? && key.TStr? {
        if KeyMatches(K_TPM2_QUOTE, key.ts) {
          var q := Wild;
          if val.BStr? { q := HandleTpm2Quote(ak, val.bs); }
          if q.Wild? { e, quoteBit := OutOfBounds, false; }
          else {
            if q.rc == 0 { quoteBit := true; }
            e := Exam(quoteBit, Some(q), e.pica);
          }
        } else if KeyMatches(K_PICA, key.ts) {
          table := Undefined;
          if val.BStr? { table := ExtractPinfo(val.bs); }
          if table.Undefined? { e, quoteBit := OutOfBounds, false; }
          else {
            picahash := sha(val.bs);
            apphash := Extend(sha, picahash, nonce);
            e := e.(pica := Some(val.bs));
          }
        }
      }
    }
    assert ps[..|ps|] == ps;
    if e.Exam? && e.pica.Some? && e.quote.Some? && e.quote.value.udata.Some? {
      freshBit := apphash == e.quote.value.udata.value && e.quote.value.capphash == picahash;
    }
  }

  ghost predicate QuoteIn(ps: seq<Pair>, ser: bytes)
  {
    exists i :: 0 <= i < |ps| && IsQuote(ps[i]) && ps[i].val == BStr(ser)
  }

  /** A reply is out of bounds exactly when one of its pairs is: a key in chunks, a quote value that is no
      byte string or leaves its data, a chain that is no byte string or does. */
  lemma {:induction false} OutOfBoundsExact(ak: AkFile, ps: seq<Pair>)
    ensures !ExamPairs(ak, ps).Rejected?
    ensures ExamPairs(ak, ps).OutOfBounds? <==>
      exists i :: 0 <= i < |ps| &&
        (|| ChunkedText(ps[i].key)
         || (IsQuote(ps[i]) && (!ps[i].val.BStr? || ReadQuote(ak, ps[i].val.bs).Wild?))
         || (IsPica(ps[i]) && (!ps[i].val.BStr? || Extract(ps[i].val.bs).Undefined?)))
  {
    hide KeyMatches, ReadQuote, Extract;
    if |ps| > 0 {
      var n := |ps| - 1;
      OutOfBoundsExact(ak, ps[..n]);
      assert forall i :: 0 <= i < n ==> ps[i] == ps[..n][i];
    }
  }

  /** main gives up on exactly the replies that are no map, of either form, of two pairs. */
  lemma {:induction false} RejectedExact(ak: AkFile, reply: bytes)
    ensures Examine(ak, reply).Rejected? <==>
      (match LoadItem(reply) case Some(Map(ps)) => |ps| != 2 case Some(MapI(ps)) => |ps| != 2 case _ => true)
  {
    hide LoadItem, ExamPairs;
    if MapPairs(reply).Some? { OutOfBoundsExact(ak, MapPairs(reply).value); }
  }

  /** The chain examined is the value of the last "pica" pair. */
  lemma {:induction false} LastChainWins(ak: AkFile, ps: seq<Pair>, i: nat)
    requires ExamPairs(ak, ps).Exam? && i < |ps| && IsPica(ps[i]) && forall j :: i < j < |ps| ==> !IsPica(ps[j])
    ensures ps[i].val.BStr? && ExamPairs(ak, ps).pica == Some(ps[i].val.bs)
  {
    hide KeyMatches, ReadQuote, Extract;
    if i < |ps| - 1 { LastChainWins(ak, ps[..|ps| - 1], i); }
  }

  lemma {:induction false} ExamBits(ak: AkFile, ps: seq<Pair>)
    requires ExamPairs(ak, ps).Exam?
    ensures var e := ExamPairs(ak, ps);
      && (e.quoteBit <==> exists ser :: QuoteIn(ps, ser) && ReadQuote(ak, ser).QuoteRead? && ReadQuote(ak, ser).rc == 0)
      && (forall ser :: QuoteIn(ps, ser) ==> ReadQuote(ak, ser).QuoteRead?)
      && (e.pica.Some? <==> exists i :: 0 <= i < |ps| && IsPica(ps[i]))
      && (e.quote.Some? ==> exists ser :: QuoteIn(ps, ser) && e.quote == Some(ReadQuote(ak, ser)))
  {
    hide KeyMatches, ReadQuote, Extract;
    if |ps| > 0 {
      var n := |ps| - 1;
      var front := ps[..n];
      ExamBits(ak, front);
      forall ser ensures QuoteIn(ps, ser) <==> QuoteIn(front, ser) || (IsQuote(ps[n]) && ps[n].val == BStr(ser)) {
        assert forall i :: 0 <= i < n ==> ps[i] == front[i];
      }
      assert forall i :: 0 <= i < n ==> ps[i] == front[i];
    }
  }

  /** The quote bit of a reply, exactly; with a chain in it a reply has room for one quote value. */
  lemma {:induction false} ReplyBitExact(ak: AkFile, reply: bytes)
    requires Examine(ak, reply).Exam?
    ensures MapPairs(reply).Some?
    ensures var e, ps := Examine(ak, reply), MapPairs(reply).value;
      && (e.quoteBit <==> exists ser :: QuoteIn(ps, ser) && (Unasked(ak, ser) || Vouched(ak, ser)))
      && (e.quote.Some? ==> exists ser :: QuoteIn(ps, ser) && e.quote == Some(ReadQuote(ak, ser)))
      && (e.pica.Some? ==> forall a, b :: QuoteIn(ps, a) && QuoteIn(ps, b) ==> a == b)
  {
    hide KeyMatches, ReadQuote, Extract, Unasked, Vouched;
    var ps := MapPairs(reply).value;
    ExamBits(ak, ps);
    forall ser | QuoteIn(ps, ser)
      ensures ReadQuote(ak, ser).rc == 0 <==> Unasked(ak, ser) || Vouched(ak, ser)
    {
      QuoteBitExact(ak, ser);
    }
  }

  // ------------------------------------------------- an undisturbed exchange

  lemma {:induction false} HonestQuoteRead(ak: AkFile, blob: bytes, sign: bytes, h: digest)
    requires ak.Key? && Fits(QuoteItem(blob, sign, h))
    ensures var c := ak.verify(blob, [sign]);
      ReadQuote(ak, Ser(QuoteItem(blob, sign, h))) == QuoteRead(c.rc, h, c.udata)
  {
    hide Ser, LoadItem, Fits, KeyMatches;
    LoadItemInverts(QuoteItem(blob, sign, h));
    var ps := QuoteItem(blob, sign, h).pairs;
    QuoteKeysApart();
    assert KindOf(ps[0]) == KQuote && KindOf(ps[1]) == KSign && KindOf(ps[2]) == KAppHash;
    assert ps[..2][..1] == ps[..1] && ps[..1][..0] == [];
    assert LastBytes(ps[..1], KQuote) == Some(blob);
    assert LastBytes(ps[..2], KQuote) == LastBytes(ps[..1], KQuote);
    assert AllBytes(ps[..1], KSign) == [];
    assert AllBytes(ps[..2], KSign) == [] + [sign] == [sign];
    assert AllBytes(ps, KSign) == AllBytes(ps[..2], KSign);
    assert ClaimedHash(ps) == h + ClaimedHash(ps[..2])[32..];
  }

  lemma {:induction false} QuoteKeysApart()
    ensures KeyMatches(K_QUOTE, K_QUOTE) && KeyMatches(K_SIGN, K_SIGN) && KeyMatches(K_APP_HASH, K_APP_HASH)
    ensures !KeyMatches(K_QUOTE, K_SIGN) && !KeyMatches(K_QUOTE, K_APP_HASH) && !KeyMatches(K_SIGN, K_APP_HASH)
    ensures KeyMatches(K_TPM2_QUOTE, K_TPM2_QUOTE) && !KeyMatches(K_TPM2_QUOTE, K_PICA) && KeyMatches(K_PICA, K_PICA)
  {
    assert K_SIGN[0] != K_QUOTE[0] && K_APP_HASH[0] != K_QUOTE[0] && K_APP_HASH[0] != K_SIGN[0];
    assert K_PICA[0] != K_TPM2_QUOTE[0];
  }

  /** The keys, spelt out. */
  lemma {:induction false} KeyTexts()
    ensures K_TPM2_QUOTE == Ascii("tpm2_quote") && K_PICA == Ascii("pica")
    ensures K_QUOTE == Ascii("quote") && K_SIGN == Ascii("sign") && K_APP_HASH == Ascii("app-hash")
  {}

  /** The daemon's messages on the wire. */
  lemma {:induction false} ReplyLayout(blob: bytes, sign: bytes, h: digest, quoteSer: bytes, chain: bytes)
    ensures ReplyItem(quoteSer, chain)
         == Map([Pair(TStr(Ascii("tpm2_quote")), BStr(quoteSer)), Pair(TStr(Ascii("pica")), BStr(chain))])
    ensures QuoteItem(blob, sign, h)
         == Map([Pair(TStr(Ascii("quote")), BStr(blob)), Pair(TStr(Ascii("sign")), BStr(sign)),
                 Pair(TStr(Ascii("app-hash")), BStr(h))])
  {
    KeyTexts();
    hide Ascii;
  }

  /** A reply of the daemon's form is examined part by part. */
  lemma {:induction false} ReplyExamined(ak: AkFile, quoteSer: bytes, chain: bytes)
    requires |quoteSer| < TWO64 && |chain| < TWO64
    requires ReadQuote(ak, quoteSer).QuoteRead? && !Extract(chain).Undefined?
    ensures var q := ReadQuote(ak, quoteSer);
      Examine(ak, Ser(ReplyItem(quoteSer, chain))) == Exam(q.rc == 0, Some(q), Some(chain))
    ensures MapPairs(Ser(ReplyItem(quoteSer, chain))) == Some(ReplyItem(quoteSer, chain).pairs)
  {
    hide Ser, LoadItem, ReadQuote, Extract, KeyMatches;
    QuoteKeysApart();
    var ri := ReplyItem(quoteSer, chain);
    assert forall p :: p in ri.pairs ==> Fits(p.key) && Fits(p.val);
    LoadItemInverts(ri);
    var ps := ri.pairs;
    assert ps[..1][..0] == [];
    var e0 := Exam(false, None, None);
    assert ExamPairs(ak, ps[..0]) == e0;
    assert ExamPairs(ak, ps[..1]) == ExamPair(ak, e0, ps[0]);
  }

  /** Sizes that CBOR can express. */
  ghost predicate ReplyFits(sha: Hash, blob: bytes, sign: bytes, chain: bytes)
  {
    |blob| < TWO64 && |sign| < TWO64 && |chain| < TWO64 && |Ser(QuoteItem(blob, sign, sha(chain)))| < TWO64
  }

  /** A reply with any claimed hash: it is fresh exactly when the quote covers the hash of its chain
      extended with the nonce, and the claimed hash is that of its chain. */
  lemma {:induction false} ReplyFreshExact(sha: Hash, ak: AkFile, nonce: digest,
                                           blob: bytes, sign: bytes, h: digest, chain: bytes)
    requires |blob| < TWO64 && |sign| < TWO64 && |chain| < TWO64 && |Ser(QuoteItem(blob, sign, h))| < TWO64
    requires ak.Key? && !Extract(chain).Undefined?
    ensures var e := Examine(ak, Ser(ReplyItem(Ser(QuoteItem(blob, sign, h)), chain)));
      var c := ak.verify(blob, [sign]);
      && e.Exam? && e.pica == Some(chain) && (e.quoteBit <==> c.rc == 0)
      && (IsFresh(sha, nonce, e) <==> c.udata == Some(sha(sha(chain) + nonce)) && h == sha(chain))
  {
    hide Ser, ReadQuote, Extract, Examine;
    var qi := QuoteItem(blob, sign, h);
    assert forall p :: p in qi.pairs ==> Fits(p.key) && Fits(p.val);
    HonestQuoteRead(ak, blob, sign, h);
    ReplyExamined(ak, Ser(qi), chain);
  }

  /** The daemon's own reply to this nonce always sets the freshness bit and delivers its chain. */
  lemma {:induction false} HonestReplyIsFresh(sha: Hash, ak: AkFile, nonce: digest,
                                              blob: bytes, sign: bytes, chain: bytes)
    requires ReplyFits(sha, blob, sign, chain) && !Extract(chain).Undefined?
    requires ak.Key? && ak.verify(blob, [sign]) == Checked(0, Some(Extend(sha, sha(chain), nonce)))
    ensures var e := Examine(ak, Reply(sha, blob, sign, chain));
      e.Exam? && e.quoteBit && e.pica == Some(chain) && IsFresh(sha, nonce, e)
  {
    hide Ser, ReadQuote, Extract, Examine;
    var qi := QuoteItem(blob, sign, sha(chain));
    assert forall p :: p in qi.pairs ==> Fits(p.key) && Fits(p.val);
    HonestQuoteRead(ak, blob, sign, sha(chain));
    ReplyExamined(ak, Ser(qi), chain);
  }

  // ------------------------------------------------------------ whole runs

  /** What the daemon hashes for a quote: for a measurement request the packed chain of the client,
      for a plain attestation request the executable of the client. */
  datatype Source = OfChain(world: map<word, Process>, cache: Cache, pid: word, n: nat) | OfFile(file: bytes)

  ghost predicate Packs(src: Source)
  {
    src.OfChain? ==> Ancestry(src.world, src.pid, src.n) && Sized(Chain(src.world, src.cache, src.pid, src.n))
  }

  ghost function Body(src: Source): bytes
    requires Packs(src)
  {
    match src
    case OfChain(world, cache, pid, n) => Ser(ChainItem(Chain(world, cache, pid, n)))
    case OfFile(file) => file
  }

  /** One quote the daemon had made: for what, which nonce, and the resulting blob. */
  datatype Quoted = Quoted(src: Source, nonce: digest, blob: bytes)

  /** A verification in progress: its nonce, how many quotes existed when it drew it, and the chain
      bytes for which it set the freshness bit. */
  datatype Session = Session(nonce: digest, started: nat, accepted: Option<bytes>)

  /** The daemon's cache, the executables it has come across so far, and its quotes; the verifiers. */
  datatype State = State(cache: Cache, seen: seq<Seen>, log: seq<Quoted>, sessions: seq<Session>)

  datatype Step =
    | ClientConnects(pr: Process)              // its executable is measured at once
    | DaemonQuotes(q: Quoted)                  // any client, any nonce
    | VerifierStarts(drawn: digest)
    | ReplyArrives(i: nat, reply: bytes)       // any bytes: honest, replayed, reordered, mixed

  /** The environment: hash, extraData of blobs, attestation key. */
  datatype Env = Env(sha: Hash, extra: bytes -> Option<digest>, ak: AkFile)

  ghost predicate QuoteMade(env: Env, q: Quoted)
  {
    Packs(q.src) && env.extra(q.blob) == Some(Extend(env.sha, env.sha(Body(q.src)), q.nonce))
  }

  ghost predicate Enabled(env: Env, s: State, step: Step)
  {
    match step
    case ClientConnects(_) => true
    case DaemonQuotes(q) => QuoteMade(env, q) && (q.src.OfChain? ==> q.src.cache == s.cache)
    case VerifierStarts(n) => forall k :: 0 <= k < |s.log| ==> s.log[k].nonce != n
    case ReplyArrives(i, reply) => i < |s.sessions| && GenuineReply(env, s, reply)
  }

  /** Quotes in a reply whose extraData is taken over were made by the daemon. */
  ghost predicate GenuineReply(env: Env, s: State, reply: bytes)
  {
    var e := Examine(env.ak, reply);
    e.Exam? && e.quote.Some? && e.quote.value.QuoteRead? && e.quote.value.udata.Some? ==>
      exists k :: 0 <= k < |s.log| && e.quote.value.udata == env.extra(s.log[k].blob)
  }

  ghost function Next(env: Env, s: State, step: Step): State
    requires step.ReplyArrives? ==> step.i < |s.sessions|
    requires step.DaemonQuotes? ==> Packs(step.q.src)
  {
    match step
    case ClientConnects(pr) =>
      s.(cache := CacheAfter(s.cache, ExeCall(pr)), seen := s.seen + [Seen(pr.ids.pid, pr.exe)])
    case DaemonQuotes(q) =>
      var s' := s.(log := s.log + [q]);
      match q.src {
        case OfFile(_) => s'
        case OfChain(world, _, pid, n) =>
          s'.(cache := CacheBehind(world, s.cache, pid, n), seen := s.seen + WalkSeen(world, pid, n))
      }
    case VerifierStarts(n) => s.(sessions := s.sessions + [Session(n, |s.log|, None)])
    case ReplyArrives(i, reply) =>
      var e := Examine(env.ak, reply);
      if IsFresh(env.sha, s.sessions[i].nonce, e)
      then s.(sessions := s.sessions[i := s.sessions[i].(accepted := e.pica)])
      else s
  }

  const INITIAL: State := State(map[], [], [], [])

  ghost predicate StepAt(env: Env, states: seq<State>, steps: seq<Step>, i: nat)
    requires i < |steps| && i + 1 < |states|
  {
    Enabled(env, states[i], steps[i]) && states[i + 1] == Next(env, states[i], steps[i])
  }

  /** A run: any list of enabled steps from the initial state. */
  ghost predicate Run(env: Env, states: seq<State>, steps: seq<Step>)
  {
    && |states| == |steps| + 1 && states[0] == INITIAL
    && forall i :: 0 <= i < |steps| ==> StepAt(env, states, steps, i)
  }

  ghost predicate Collide(sha: Hash, x: bytes, y: bytes) { x != y && sha(x) == sha(y) }

  /** Quote `q` accounts for accepting `body` under `nonce`, up to two named hash collisions. */
  ghost predicate Accounts(sha: Hash, q: Quoted, body: bytes, nonce: digest)
  {
    Packs(q.src)
    && (|| (Body(q.src) == body && q.nonce == nonce)
        || Collide(sha, Body(q.src), body)
        || Collide(sha, sha(Body(q.src)) + q.nonce, sha(body) + nonce))
  }

  ghost predicate SessionOk(env: Env, s: State, i: nat)
    requires i < |s.sessions|
  {
    var se := s.sessions[i];
    && se.started <= |s.log|
    && (forall k :: 0 <= k < se.started ==> s.log[k].nonce != se.nonce)
    && (se.accepted.Some? ==> exists k :: 0 <= k < |s.log| && Accounts(env.sha, s.log[k], se.accepted.value, se.nonce))
  }

  /** A quote was made, and over a chain whose digests are those of the executables seen first. */
  ghost predicate LogOk(env: Env, seen: seq<Seen>, q: Quoted)
  {
    && QuoteMade(env, q)
    && (q.src.OfChain? ==> DigestsSeen(seen, Chain(q.src.world, q.src.cache, q.src.pid, q.src.n)))
  }

  ghost predicate Invariant(env: Env, s: State)
  {
    && Remembers(s.cache, s.seen)
    && (forall k :: 0 <= k < |s.log| ==> LogOk(env, s.seen, s.log[k]))
    && (forall i :: 0 <= i < |s.sessions| ==> SessionOk(env, s, i))
  }

  /** Equal extended hashes come from equal bytes and nonce, or from a collision. */
  lemma {:induction false} ExtendedOnlyBy(sha: Hash, q: Quoted, body: bytes, nonce: digest)
    requires Packs(q.src) && Extend(sha, sha(Body(q.src)), q.nonce) == Extend(sha, sha(body), nonce)
    ensures Accounts(sha, q, body, nonce)
  {
    hide Body;
    var x, y := sha(Body(q.src)) + q.nonce, sha(body) + nonce;
    if x == y {
      assert x[..32] == sha(Body(q.src)) && y[..32] == sha(body);
      assert x[32..] == q.nonce && y[32..] == nonce;
    }
  }

  /** A reply that is fresh for a nonce is accounted for by a quote. */
  lemma {:induction false} FreshReplyAccounted(env: Env, s: State, reply: bytes, nonce: digest) returns (k: nat)
    requires Invariant(env, s) && GenuineReply(env, s, reply)
    requires IsFresh(env.sha, nonce, Examine(env.ak, reply))
    ensures k < |s.log| && Accounts(env.sha, s.log[k], Examine(env.ak, reply).pica.value, nonce)
  {
    hide Examine, Accounts, Body, DigestsSeen;
    var e := Examine(env.ak, reply);
    k :| 0 <= k < |s.log| && e.quote.value.udata == env.extra(s.log[k].blob);
    ExtendedOnlyBy(env.sha, s.log[k], e.pica.value, nonce);
  }

  lemma {:induction false} LogKept(env: Env, seen: seq<Seen>, more: seq<Seen>, q: Quoted)
    requires LogOk(env, seen, q)
    ensures LogOk(env, seen + more, q)
  {
    hide DigestsSeen, Chain;
    if q.src.OfChain? { SeenKept(seen, more, Chain(q.src.world, q.src.cache, q.src.pid, q.src.n)); }
  }

  /** The daemon's side: its cache keeps remembering what was seen, and its quotes stay accounted for. */
  lemma {:induction false} DaemonStep(env: Env, s: State, step: Step)
    requires Invariant(env, s) && Enabled(env, s, step)
    ensures var s' := Next(env, s, step);
      Remembers(s'.cache, s'.seen) && forall k :: 0 <= k < |s'.log| ==> LogOk(env, s'.seen, s'.log[k])
  {
    hide Examine, IsFresh, SessionOk, Remembers, DigestsSeen, Chain, CacheBehind, WalkSeen, Learns, GenuineReply, Body;
    var s' := Next(env, s, step);
    match step
    case ClientConnects(pr) =>
      var here := Seen(pr.ids.pid, pr.exe);
      MeasuringLearns(s.cache, pr);
      LearningRemembers(s.cache, CacheAfter(s.cache, ExeCall(pr)), s.seen, here);
      forall k | 0 <= k < |s.log| ensures LogOk(env, s'.seen, s.log[k]) { LogKept(env, s.seen, [here], s.log[k]); }
    case DaemonQuotes(q) =>
      match q.src {
        case OfFile(_) =>
        case OfChain(world, cache, pid, n) =>
          WalkRemembers(world, s.cache, s.seen, pid, n);
          ChainSeen(world, s.cache, s.seen, pid, n);
          forall k | 0 <= k < |s.log| ensures LogOk(env, s'.seen, s.log[k]) {
            LogKept(env, s.seen, WalkSeen(world, pid, n), s.log[k]);
          }
      }
    case _ =>
  }

  lemma {:induction false} StepKeepsInvariant(env: Env, s: State, step: Step)
    requires Invariant(env, s) && Enabled(env, s, step)
    ensures Invariant(env, Next(env, s, step))
  {
    hide Examine, Accounts, LogOk, Remembers, CacheBehind, WalkSeen, Body;
    DaemonStep(env, s, step);
    var s' := Next(env, s, step);
    forall i | 0 <= i < |s'.sessions| ensures SessionOk(env, s', i) {
      if i < |s.sessions| {
        assert SessionOk(env, s, i);
        var se := s'.sessions[i];
        if s.sessions[i].accepted.Some? {
          var k :| 0 <= k < |s.log| && Accounts(env.sha, s.log[k], s.sessions[i].accepted.value, s.sessions[i].nonce);
          assert s'.log[k] == s.log[k];
        }
        if step.ReplyArrives? && step.i == i && IsFresh(env.sha, se.nonce, Examine(env.ak, step.reply)) {
          var k := FreshReplyAccounted(env, s, step.reply, se.nonce);
          assert Accounts(env.sha, s'.log[k], Examine(env.ak, step.reply).pica.value, se.nonce);
        }
      }
    }
  }

  lemma {:induction false} RunKeepsInvariant(env: Env, states: seq<State>, steps: seq<Step>, j: nat)
    requires Run(env, states, steps) && j < |states|
    ensures Invariant(env, states[j])
  {
    hide Next, Enabled;
    if j > 0 {
      RunKeepsInvariant(env, states, steps, j - 1);
      assert StepAt(env, states, steps, j - 1);
      StepKeepsInvariant(env, states[j - 1], steps[j - 1]);
    }
  }

  /** Quote `k` is one of `body`, made for session `i` after it had drawn its nonce, or collides. */
  ghost predicate QuotedFor(sha: Hash, s: State, k: nat, i: nat, body: bytes)
    requires k < |s.log| && i < |s.sessions|
  {
    var q, se := s.log[k], s.sessions[i];
    Packs(q.src)
    && (|| (se.started <= k && Body(q.src) == body && q.nonce == se.nonce)
        || Collide(sha, Body(q.src), body)
        || Collide(sha, sha(Body(q.src)) + q.nonce, sha(body) + se.nonce))
  }

  /** Freshness: at any point of any run - any interleaving, replay and reordering - a verifier that
      set the freshness bit holds exactly the bytes the daemon extended with this verifier's nonce
      and had quoted after the nonce was drawn; the only alternative is one of two named
      collisions of `sha`. */
  lemma {:induction false} FreshnessOverRuns(env: Env, states: seq<State>, steps: seq<Step>, j: nat, i: nat)
    requires Run(env, states, steps) && j < |states|
    requires i < |states[j].sessions| && states[j].sessions[i].accepted.Some?
    ensures exists k ::
      0 <= k < |states[j].log| && QuotedFor(env.sha, states[j], k, i, states[j].sessions[i].accepted.value)
  {
    RunKeepsInvariant(env, states, steps, j);
    var s := states[j];
    assert SessionOk(env, s, i);
    var se := s.sessions[i];
    var k :| 0 <= k < |s.log| && Accounts(env.sha, s.log[k], se.accepted.value, se.nonce);
    assert QuotedFor(env.sha, s, k, i, se.accepted.value);
  }

  /** A step keeps the nonces and starting points of the sessions; only a start adds one. */
  lemma {:induction false} StepSessions(env: Env, s: State, step: Step)
    requires Enabled(env, s, step)
    ensures var a, b := s.sessions, Next(env, s, step).sessions;
      && |a| <= |b| <= |a| + 1
      && (forall i :: 0 <= i < |a| ==> b[i].nonce == a[i].nonce && b[i].started == a[i].started)
      && (|b| > |a| ==> step == VerifierStarts(b[|a|].nonce) && b[|a|].started == |s.log|)
  {
    hide Examine, IsFresh, GenuineReply, CacheBehind, WalkSeen, Body, Chain, Sized;
    match step
    case ClientConnects(_) =>
    case DaemonQuotes(_) =>
    case VerifierStarts(_) =>
    case ReplyArrives(_, _) =>
  }

  lemma {:induction false} SessionBegan(env: Env, states: seq<State>, steps: seq<Step>, j: nat, i: nat) returns (m: nat)
    requires Run(env, states, steps) && j < |states| && i < |states[j].sessions|
    ensures m < j && steps[m] == VerifierStarts(states[j].sessions[i].nonce)
    ensures states[j].sessions[i].started == |states[m].log|
  {
    hide Enabled, Next;
    assert j > 0;
    assert StepAt(env, states, steps, j - 1);
    StepSessions(env, states[j - 1], steps[j - 1]);
    if i < |states[j - 1].sessions| { m := SessionBegan(env, states, steps, j - 1, i); } else { m := j - 1; }
  }

  lemma {:induction false} QuoteBegan(env: Env, states: seq<State>, steps: seq<Step>, j: nat, k: nat) returns (m: nat)
    requires Run(env, states, steps) && j < |states| && k < |states[j].log|
    ensures m < j && steps[m] == DaemonQuotes(states[j].log[k]) && |states[m].log| == k
  {
    hide Enabled, Examine, IsFresh;
    assert j > 0;
    assert StepAt(env, states, steps, j - 1);
    if k < |states[j - 1].log| { m := QuoteBegan(env, states, steps, j - 1, k); } else { m := j - 1; }
  }

  lemma {:induction false} LogGrows(env: Env, states: seq<State>, steps: seq<Step>, a: nat, b: nat)
    requires Run(env, states, steps) && a <= b < |states|
    ensures |states[a].log| <= |states[b].log|
  {
    hide Enabled, Examine, IsFresh;
    if a < b {
      LogGrows(env, states, steps, a, b - 1);
      assert StepAt(env, states, steps, b - 1);
    }
  }

  /** Step `m1` quotes `body` for a nonce that step `m0` before it drew. */
  ghost predicate QuotedBetween(steps: seq<Step>, m0: nat, m1: nat, j: nat, body: bytes, nonce: digest)
  {
    && m0 < m1 < j <= |steps| && steps[m0] == VerifierStarts(nonce)
    && steps[m1].DaemonQuotes? && Packs(steps[m1].q.src) && Body(steps[m1].q.src) == body && steps[m1].q.nonce == nonce
  }

  /** Two bytes strings with one hash, one of them hashed for quote `q`. */
  ghost predicate QuoteCollides(sha: Hash, q: Quoted, body: bytes, nonce: digest)
  {
    Packs(q.src) && (Collide(sha, Body(q.src), body) || Collide(sha, sha(Body(q.src)) + q.nonce, sha(body) + nonce))
  }

  /** Freshness in terms of the steps alone: the accepted bytes were quoted for this nonce in a step
      behind the one that drew it, or a quote collides. */
  lemma {:induction false} FreshInSteps(env: Env, states: seq<State>, steps: seq<Step>, j: nat, i: nat)
    requires Run(env, states, steps) && j < |states|
    requires i < |states[j].sessions| && states[j].sessions[i].accepted.Some?
    ensures var se := states[j].sessions[i];
      || (exists m0: nat, m1: nat :: QuotedBetween(steps, m0, m1, j, se.accepted.value, se.nonce))
      || (exists k :: 0 <= k < |states[j].log| && QuoteCollides(env.sha, states[j].log[k], se.accepted.value, se.nonce))
  {
    hide Run, Body, Packs;
    FreshnessOverRuns(env, states, steps, j, i);
    var s, se := states[j], states[j].sessions[i];
    var k :| 0 <= k < |s.log| && QuotedFor(env.sha, s, k, i, se.accepted.value);
    var m0 := SessionBegan(env, states, steps, j, i);
    var m1 := QuoteBegan(env, states, steps, j, k);
    RunLengths(env, states, steps);
    if m1 < m0 { LogGrows(env, states, steps, m1 + 1, m0); QuoteCounted(env, states, steps, m1); }
    if !QuoteCollides(env.sha, s.log[k], se.accepted.value, se.nonce) {
      assert QuotedBetween(steps, m0, m1, j, se.accepted.value, se.nonce);
    }
  }

  lemma {:induction false} RunLengths(env: Env, states: seq<State>, steps: seq<Step>)
    requires Run(env, states, steps)
    ensures |states| == |steps| + 1
  {}

  lemma {:induction false} QuoteCounted(env: Env, states: seq<State>, steps: seq<Step>, m: nat)
    requires Run(env, states, steps) && m < |steps| && steps[m].DaemonQuotes?
    ensures |states[m + 1].log| == |states[m].log| + 1
  {
    hide Enabled, Examine, IsFresh;
    assert StepAt(env, states, steps, m);
  }

  ghost predicate Deliverable(env: Env, s: State, i: nat, k: nat, sign: bytes)
  {
    && i < |s.sessions| && k < |s.log| && s.log[k].nonce == s.sessions[i].nonce && Packs(s.log[k].src)
    && env.ak.Key? && env.ak.verify(s.log[k].blob, [sign]) == Checked(0, env.extra(s.log[k].blob))
    && ReplyFits(env.sha, s.log[k].blob, sign, Body(s.log[k].src))
  }

  /** A quote for a session's nonce, delivered with what it covers at any later time, is accepted;
      also when it covers an executable whose bytes happen to read as a process table. */
  lemma {:induction false} QuoteDelivery(env: Env, s: State, i: nat, k: nat, sign: bytes)
    requires Invariant(env, s) && Deliverable(env, s, i, k, sign) && !Extract(Body(s.log[k].src)).Undefined?
    ensures var body := Body(s.log[k].src);
      var step := ReplyArrives(i, Reply(env.sha, s.log[k].blob, sign, body));
      Enabled(env, s, step) && Next(env, s, step).sessions[i].accepted == Some(body)
  {
    hide Examine, Extract, Reply, Ser, Body;
    var q := s.log[k];
    assert QuoteMade(env, q);
    HonestReplyIsFresh(env.sha, env.ak, q.nonce, q.blob, sign, Body(q.src));
  }

  /** The daemon's reply to a session's nonce, delivered at any later time, is accepted. */
  lemma {:induction false} HonestDelivery(env: Env, s: State, i: nat, k: nat, sign: bytes)
    requires Invariant(env, s) && Deliverable(env, s, i, k, sign) && s.log[k].src.OfChain?
    ensures var chain := Body(s.log[k].src);
      var step := ReplyArrives(i, Reply(env.sha, s.log[k].blob, sign, chain));
      Enabled(env, s, step) && Next(env, s, step).sessions[i].accepted == Some(chain)
  {
    hide Examine, Extract, Reply, Ser, ReplyFits, Enabled;
    var src := s.log[k].src;
    ChainMeasured(src.world, src.cache, src.pid, src.n);
    ChainDecodes(Chain(src.world, src.cache, src.pid, src.n));
    QuoteDelivery(env, s, i, k, sign);
  }

  /** The TPM quotes what it is given, its quotes pass the check, and they fit the reply buffer. */
  ghost predicate HonestTpm(extra: bytes -> Option<digest>, ak: AkFile, quote: digest -> (bytes, bytes))
  {
    && ak.Key?
    && (forall d :: extra(quote(d).0) == Some(d) && ak.verify(quote(d).0, [quote(d).1]) == Checked(0, Some(d)))
    && (forall d :: |quote(d).0| < TWO31 && |quote(d).1| < TWO31)
    && (forall d, h :: |Ser(QuoteItem(quote(d).0, quote(d).1, h))| <= QUOTE_BUFFER)
  }

  /** The honest daemon's reply carries the walked chain and is fresh for the nonce. */
  method FreshReply(sha: Hash, ghost extra: bytes -> Option<digest>, ghost ak: AkFile,
                    quote: digest -> (bytes, bytes), nonce: digest,
                    tab: FpTable, world: map<word, Process>, pid: word, ghost n: nat)
    returns (reply: bytes)
    requires tab.Valid() && Ancestry(world, pid, n) && Sized(Chain(world, tab.cache, pid, n))
    requires |Ser(ChainItem(Chain(world, tab.cache, pid, n)))| < TWO64
    requires HonestTpm(extra, ak, quote)
    modifies tab, tab.nodes
    ensures tab.Valid() && fresh(tab.nodes - old(tab.nodes))
    ensures var e, t := Examine(ak, reply), Chain(world, old(tab.cache), pid, n);
      && e.Exam? && e.quoteBit && e.pica == Some(Ser(ChainItem(t))) && IsFresh(sha, nonce, e)
      && AllNamed(t) && Extract(e.pica.value) == Table(t)
  {
    hide FpTable.Valid, Ser, Examine, ReadQuote, Chain, Extract, CacheBehind;
    ghost var meas := Chain(world, tab.cache, pid, n);
    ghost var chain := Ser(ChainItem(meas));
    ghost var (blob, sign) := quote(Extend(sha, sha(chain), nonce));
    ChainMeasured(world, tab.cache, pid, n);
    ChainDecodes(meas);
    reply := ServePica(sha, quote, nonce, tab, world, pid, n);
    HonestReplyIsFresh(sha, ak, nonce, blob, sign, chain);
  }

  /** Daemon and verifier back to back: fresh, genuine, and the verifier reads the walked chain. */
  method HonestExchange(sha: Hash, ghost extra: bytes -> Option<digest>, ak: AkFile, quote: digest -> (bytes, bytes),
                        nonce: digest, tab: FpTable, world: map<word, Process>, pid: word, ghost n: nat)
    returns (quoteBit: bool, freshBit: bool, table: Extracted)
    requires tab.Valid() && Ancestry(world, pid, n) && Sized(Chain(world, tab.cache, pid, n))
    requires |Ser(ChainItem(Chain(world, tab.cache, pid, n)))| < TWO64
    requires HonestTpm(extra, ak, quote)
    modifies tab, tab.nodes
    ensures tab.Valid() && fresh(tab.nodes - old(tab.nodes))
    ensures quoteBit && freshBit && table == Table(Chain(world, old(tab.cache), pid, n))
  {
    hide FpTable.Valid, Ser, Examine, ReadQuote, Chain, Extract, CacheBehind, HonestTpm, IsFresh;
    var reply := FreshReply(sha, extra, ak, quote, nonce, tab, world, pid, n);
    var e;
    e, quoteBit, freshBit, table := CheckReply(sha, ak, nonce, reply);
  }
}

// CBOR (section 3 of RFC 8949) as libcbor reads it, and as the attester and the enclave write it.
module Cbor {
  import opened Bytes

  /** `width` is the number of argument bytes of an integer item (1 also when it is embedded).
      ArrayI, MapI and Chunks have indefinite length; Simple is a constant or a float. */
  datatype Item =
    | UInt(width: nat, value: nat)
    | NInt(width: nat, value: nat)
    | BStr(bs: bytes)
    | TStr(ts: bytes)
    | Chunks(text: bool, parts: seq<bytes>)
    | Array(items: seq<Item>)
    | ArrayI(items: seq<Item>)
    | Map(pairs: seq<Pair>)
    | MapI(pairs: seq<Pair>)
    | Tag(tag: nat, item: Item)
    | Simple(width: nat, value: nat)

  datatype Pair = Pair(key: Item, val: Item)

  const BREAK: byte := 255

  ghost predicate Fits(x: Item)
  {
    match x
    case UInt(w, v) => (w == 1 || w == 2 || w == 4 || w == 8) && v < Pow256(w)
    case NInt(w, v) => (w == 1 || w == 2 || w == 4 || w == 8) && v < Pow256(w)
    case Simple(w, v) => (w == 1 && 20 <= v < 24) || ((w == 2 || w == 4 || w == 8) && v < Pow256(w))
    case Chunks(_, cs) => forall c :: c in cs ==> |c| < TWO64
    case ArrayI(xs) => forall y :: y in xs ==> Fits(y)
    case MapI(ps) => forall p :: p in ps ==> Fits(p.key) && Fits(p.val)
    case BStr(b) => |b| < TWO64
    case TStr(t) => |t| < TWO64
    case Array(xs) => |xs| < TWO64 && forall y :: y in xs ==> Fits(y)
    case Map(ps) => |ps| < TWO64 && forall p :: p in ps ==> Fits(p.key) && Fits(p.val)
    case Tag(t, y) => t < TWO64 && Fits(y)
  }

  // -------------------------------------------------------- serialization

  /** Initial byte and argument, in the shortest form. */
  function SerHead(major: nat, n: nat): (b: bytes)
    requires major < 8
    ensures |b| > 0 && b[0] / 32 == major && b[0] % 32 < 28
  {
    if n < 24 then [major * 32 + n]
    else if n < 0x100 then [major * 32 + 24] + Be(n, 1)
    else if n < 0x1_0000 then [major * 32 + 25] + Be(n, 2)
    else if n < TWO32 then [major * 32 + 26] + Be(n, 4)
    else [major * 32 + 27] + Be(n, 8)
  }

  /** Integers and floats keep the width they were built with. */
  function SerInt(major: nat, width: nat, v: nat): (b: bytes)
    requires major < 8
    ensures |b| > 0 && b[0] / 32 == major && b[0] % 32 < 28
  {
    if width == 1 then SerHead(major, v % 256)
    else [major * 32 + (if width == 2 then 25 else if width == 4 then 26 else 27)] + Be(v, width)
  }

  function Ser(x: Item): (b: bytes)
    ensures |b| > 0 && b[0] != BREAK
  {
    match x
    case UInt(w, v) => SerInt(0, w, v)
    case NInt(w, v) => SerInt(1, w, v)
    case BStr(b) => SerHead(2, |b|) + b
    case TStr(t) => SerHead(3, |t|) + t
    case Chunks(text, cs) => var major := if text then 3 else 2; [major * 32 + 31] + SerChunks(major, cs)
    case Array(xs) => SerHead(4, |xs|) + SerItems(xs)
    case ArrayI(xs) => [4 * 32 + 31] + (SerItems(xs) + [BREAK])
    case Map(ps) => SerHead(5, |ps|) + SerPairs(ps)
    case MapI(ps) => [5 * 32 + 31] + (SerPairs(ps) + [BREAK])
    case Tag(t, y) => SerHead(6, t) + Ser(y)
    case Simple(w, v) => SerInt(7, w, v)
  }

  function SerChunks(major: nat, cs: seq<bytes>): bytes
    requires major < 8
  {
    if |cs| == 0 then [BREAK] else SerHead(major, |cs[0]|) + cs[0] + SerChunks(major, cs[1..])
  }

  function SerItems(xs: seq<Item>): bytes
  {
    if |xs| == 0 then [] else Ser(xs[0]) + SerItems(xs[1..])
  }

  function SerPair(p: Pair): (b: bytes)
    ensures |b| > 0 && b[0] != BREAK
  {
    Ser(p.key) + Ser(p.val)
  }

  function SerPairs(ps: seq<Pair>): bytes
  {
    if |ps| == 0 then [] else SerPair(ps[0]) + SerPairs(ps[1..])
  }

  // -------------------------------------------------------------- loading

  datatype Head = NoHead | Head(major: nat, width: nat, arg: nat, rest: bytes)

  function LoadHead(b: bytes): (h: Head)
    ensures h.Head? ==> |h.rest| < |b|
  {
    if |b| == 0 then NoHead else
      var major, info := b[0] / 32, b[0] % 32;
      if info < 24 then Head(major, 1, info, b[1..])
      else
        var w := if info == 24 then 1 else if info == 25 then 2 else if info == 26 then 4 else 8;
        if info > 27 || |b| < 1 + w then NoHead
        else Head(major, w, UnBe(b[1..1 + w]), b[1 + w..])
  }

  datatype Loaded<T> = Bad | Good(value: T, rest: bytes)

  function Load(b: bytes): (r: Loaded<Item>)
    ensures r.Good? ==> |r.rest| < |b|
    decreases |b|, 0
  {
    if |b| > 0 && b[0] % 32 == 31 then LoadIndefinite(b[0] / 32, b) else
      match LoadHead(b)
      case NoHead => Bad
      case Head(major, w, n, rest) =>
        if major == 0 then Good(UInt(w, n), rest)
        else if major == 1 then Good(NInt(w, n), rest)
        else if major == 2 then (if n > |rest| then Bad else Good(BStr(rest[..n]), rest[n..]))
        else if major == 3 then (if n > |rest| then Bad else Good(TStr(rest[..n]), rest[n..]))
        else if major == 4 then
          match LoadItems(n, rest) { case Bad => Bad case Good(xs, tail) => Good(Array(xs), tail) }
        else if major == 5 then
          match LoadPairs(n, rest) { case Bad => Bad case Good(ps, tail) => Good(Map(ps), tail) }
        else if major == 6 then
          match Load(rest) { case Bad => Bad case Good(y, tail) => Good(Tag(n, y), tail) }
        else if SimpleHead(b[0] % 32) then Good(Simple(w, n), rest)
        else Bad
  }

  /** false, true, null, undefined, and the three widths of floats */
  predicate SimpleHead(info: nat) { 20 <= info < 24 || 25 <= info < 28 }

  function LoadIndefinite(major: nat, b: bytes): (r: Loaded<Item>)
    requires |b| > 0
    ensures r.Good? ==> |r.rest| < |b|
    decreases |b| - 1, 3
  {
    if major == 2 || major == 3 then
      match LoadChunks(major, b[1..]) { case Bad => Bad case Good(cs, tail) => Good(Chunks(major == 3, cs), tail) }
    else if major == 4 then
      match LoadItemsI(b[1..]) { case Bad => Bad case Good(xs, tail) => Good(ArrayI(xs), tail) }
    else if major == 5 then
      match LoadPairsI(b[1..]) { case Bad => Bad case Good(ps, tail) => Good(MapI(ps), tail) }
    else Bad
  }

  function LoadChunks(major: nat, b: bytes): (r: Loaded<seq<bytes>>)
    ensures r.Good? ==> |r.rest| < |b|
    decreases |b|, 0
  {
    if |b| == 0 then Bad
    else if b[0] == BREAK then Good([], b[1..])
    else
      match LoadHead(b)
      case NoHead => Bad
      case Head(m, _, n, rest) =>
        if m != major || n > |rest| then Bad else
          match LoadChunks(major, rest[n..]) { case Bad => Bad case Good(cs, tail) => Good([rest[..n]] + cs, tail) }
  }

  function LoadItemsI(b: bytes): (r: Loaded<seq<Item>>)
    ensures r.Good? ==> |r.rest| < |b|
    decreases |b|, 1
  {
    if |b| == 0 then Bad
    else if b[0] == BREAK then Good([], b[1..])
    else
      match Load(b)
      case Bad => Bad
      case Good(x, rest) =>
        match LoadItemsI(rest) { case Bad => Bad case Good(xs, tail) => Good([x] + xs, tail) }
  }

  function LoadPairsI(b: bytes): (r: Loaded<seq<Pair>>)
    ensures r.Good? ==> |r.rest| < |b|
    decreases |b|, 2
  {
    if |b| == 0 then Bad
    else if b[0] == BREAK then Good([], b[1..])
    else
      match LoadPair(b)
      case Bad => Bad
      case Good(p, rest) =>
        match LoadPairsI(rest) { case Bad => Bad case Good(ps, tail) => Good([p] + ps, tail) }
  }

  function LoadItems(n: nat, b: bytes): (r: Loaded<seq<Item>>)
    ensures r.Good? ==> |r.rest| <= |b| && |r.value| == n
    decreases |b|, 1
  {
    if n == 0 then Good([], b) else
      match Load(b)
      case Bad => Bad
      case Good(x, rest) =>
        match LoadItems(n - 1, rest) { case Bad => Bad case Good(xs, tail) => Good([x] + xs, tail) }
  }

  function LoadPair(b: bytes): (r: Loaded<Pair>)
    ensures r.Good? ==> |r.rest| < |b|
    decreases |b|, 1
  {
    match Load(b)
    case Bad => Bad
    case Good(k, rest) =>
      match Load(rest) { case Bad => Bad case Good(v, rest') => Good(Pair(k, v), rest') }
  }

  function LoadPairs(n: nat, b: bytes): (r: Loaded<seq<Pair>>)
    ensures r.Good? ==> |r.rest| <= |b| && |r.value| == n
    decreases |b|, 2
  {
    if n == 0 then Good([], b) else
      match LoadPair(b)
      case Bad => Bad
      case Good(p, rest) =>
        match LoadPairs(n - 1, rest) { case Bad => Bad case Good(ps, tail) => Good([p] + ps, tail) }
  }

  // ----------------------------------------------------------- round trip

  lemma {:induction false} LoadWide(major: nat, info: nat, w: nat, n: nat, tail: bytes)
    requires major < 8 && n < Pow256(w)
    requires (info == 24 && w == 1) || (info == 25 && w == 2) || (info == 26 && w == 4) || (info == 27 && w == 8)
    ensures LoadHead([major * 32 + info] + Be(n, w) + tail) == Head(major, w, n, tail)
  {
    hide Be, UnBe, Pow256;
    BeRoundTrip(n, w);
    var b := [major * 32 + info] + Be(n, w) + tail;
    assert b[0] / 32 == major && b[0] % 32 == info;
    assert b[1..1 + w] == Be(n, w) && b[1 + w..] == tail;
  }

  lemma {:induction false} LoadSerHead(major: nat, n: nat, tail: bytes)
    requires major < 8 && n < TWO64
    ensures var h := LoadHead(SerHead(major, n) + tail);
      h.Head? && h.major == major && h.arg == n && h.rest == tail && (n < 0x100 ==> h.width == 1)
  {
    hide Be, Pow256;
    Pow256Values();
    if n < 24 {
      var b := [major * 32 + n] + tail;
      assert b[0] / 32 == major && b[0] % 32 == n && b[1..] == tail;
    } else if n < 0x100 { LoadWide(major, 24, 1, n, tail); }
    else if n < 0x1_0000 { LoadWide(major, 25, 2, n, tail); }
    else if n < TWO32 { LoadWide(major, 26, 4, n, tail); }
    else { LoadWide(major, 27, 8, n, tail); }
  }

  lemma {:induction false} LoadSerInt(major: nat, w: nat, v: nat, tail: bytes)
    requires major < 8 && (w == 1 || w == 2 || w == 4 || w == 8) && v < Pow256(w)
    ensures LoadHead(SerInt(major, w, v) + tail) == Head(major, w, v, tail)
  {
    hide Be, LoadHead, SerHead;
    Pow256Values();
    if w == 1 { LoadSerHead(major, v, tail); }
    else if w == 2 { LoadWide(major, 25, 2, v, tail); }
    else if w == 4 { LoadWide(major, 26, 4, v, tail); }
    else { LoadWide(major, 27, 8, v, tail); }
  }

  /** Loading inverts serialization and leaves what follows the item alone. */
  lemma {:induction false} LoadInvertsSer(x: Item, tail: bytes)
    requires Fits(x)
    ensures Load(Ser(x) + tail) == Good(x, tail)
    decreases x
  {
    hide LoadHead, SerHead, SerInt;
    match x
    case UInt(w, v) =>
      LoadSerInt(0, w, v, tail);
    case NInt(w, v) =>
      LoadSerInt(1, w, v, tail);
    case Simple(w, v) =>
      SimpleBack(w, v, tail);
    case BStr(b) =>
      StringBack(2, b, tail);
    case TStr(t) =>
      StringBack(3, t, tail);
    case Chunks(text, cs) =>
      var major := if text then 3 else 2;
      ChunksBack(major, cs, tail);
      IndefiniteBack(x, major, SerChunks(major, cs), tail);
    case Array(xs) =>
      assert Ser(x) + tail == SerHead(4, |xs|) + (SerItems(xs) + tail);
      LoadSerHead(4, |xs|, SerItems(xs) + tail);
      LoadInvertsSerItems(xs, tail);
    case ArrayI(xs) =>
      LoadInvertsSerItemsI(xs, tail);
      IndefiniteBack(x, 4, SerItems(xs) + [BREAK], tail);
    case Map(ps) =>
      assert Ser(x) + tail == SerHead(5, |ps|) + (SerPairs(ps) + tail);
      LoadSerHead(5, |ps|, SerPairs(ps) + tail);
      LoadInvertsSerPairs(ps, tail);
    case MapI(ps) =>
      LoadInvertsSerPairsI(ps, tail);
      IndefiniteBack(x, 5, SerPairs(ps) + [BREAK], tail);
    case Tag(t, y) =>
      assert Ser(x) + tail == SerHead(6, t) + (Ser(y) + tail);
      LoadSerHead(6, t, Ser(y) + tail);
      LoadInvertsSer(y, tail);
  }

  lemma {:induction false} SimpleBack(w: nat, v: nat, tail: bytes)
    requires Fits(Simple(w, v))
    ensures Load(SerInt(7, w, v) + tail) == Good(Simple(w, v), tail)
  {
    hide Be, LoadHead, Pow256;
    Pow256Values();
    LoadSerInt(7, w, v, tail);
    var b := SerInt(7, w, v);
    assert (b + tail)[0] == b[0];
    if w == 1 { assert b == [7 * 32 + v]; }
  }

  /** The body behind an indefinite initial byte. */
  lemma {:induction false} IndefiniteBack(x: Item, major: nat, body: bytes, tail: bytes)
    requires major < 8 && Ser(x) == [major * 32 + 31] + body
    ensures var b := Ser(x) + tail; b[0] / 32 == major && b[0] % 32 == 31 && b[1..] == body + tail
    ensures Load(Ser(x) + tail) == LoadIndefinite(major, Ser(x) + tail)
  {
    hide Ser, LoadHead;
  }

  lemma {:induction false} ChunksBack(major: nat, cs: seq<bytes>, tail: bytes)
    requires major < 7 && forall c :: c in cs ==> |c| < TWO64
    ensures LoadChunks(major, SerChunks(major, cs) + tail) == Good(cs, tail)
    decreases |cs|
  {
    hide LoadHead, SerHead;
    if |cs| > 0 {
      var rest := SerChunks(major, cs[1..]) + tail;
      ChunksBack(major, cs[1..], tail);
      StringBack(major, cs[0], rest);
      assert SerChunks(major, cs) + tail == SerHead(major, |cs[0]|) + cs[0] + rest;
      assert [cs[0]] + cs[1..] == cs;
    }
  }

  lemma {:induction false} StringBack(major: nat, s: bytes, tail: bytes)
    requires major < 8 && |s| < TWO64
    ensures var h := LoadHead(SerHead(major, |s|) + s + tail);
      h.Head? && h.major == major && h.arg == |s| && h.rest[..|s|] == s && h.rest[|s|..] == tail
      && |s| <= |h.rest|
  {
    hide LoadHead, SerHead;
    LoadSerHead(major, |s|, s + tail);
    assert SerHead(major, |s|) + s + tail == SerHead(major, |s|) + (s + tail);
  }

  lemma {:induction false} LoadInvertsSerItems(xs: seq<Item>, tail: bytes)
    requires forall y :: y in xs ==> Fits(y)
    ensures LoadItems(|xs|, SerItems(xs) + tail) == Good(xs, tail)
    decreases xs
  {
    hide Ser, Load, Fits;
    if |xs| > 0 {
      LoadInvertsSer(xs[0], SerItems(xs[1..]) + tail);
      LoadInvertsSerItems(xs[1..], tail);
      assert SerItems(xs) + tail == Ser(xs[0]) + (SerItems(xs[1..]) + tail);
      assert [xs[0]] + xs[1..] == xs;
    }
  }

  lemma {:induction false} LoadInvertsSerItemsI(xs: seq<Item>, tail: bytes)
    requires forall y :: y in xs ==> Fits(y)
    ensures LoadItemsI(SerItems(xs) + [BREAK] + tail) == Good(xs, tail)
    decreases xs
  {
    hide Ser, Load, Fits;
    if |xs| > 0 {
      LoadInvertsSer(xs[0], SerItems(xs[1..]) + [BREAK] + tail);
      LoadInvertsSerItemsI(xs[1..], tail);
      assert SerItems(xs) + [BREAK] + tail == Ser(xs[0]) + (SerItems(xs[1..]) + [BREAK] + tail);
      assert [xs[0]] + xs[1..] == xs;
    }
  }

  lemma {:induction false} LoadInvertsSerPair(p: Pair, tail: bytes)
    requires Fits(p.key) && Fits(p.val)
    ensures LoadPair(SerPair(p) + tail) == Good(p, tail)
    decreases p
  {
    hide Ser, Load, Fits;
    LoadInvertsSer(p.key, Ser(p.val) + tail);
    LoadInvertsSer(p.val, tail);
    assert SerPair(p) + tail == Ser(p.key) + (Ser(p.val) + tail);
  }

  lemma {:induction false} LoadInvertsSerPairs(ps: seq<Pair>, tail: bytes)
    requires forall p :: p in ps ==> Fits(p.key) && Fits(p.val)
    ensures LoadPairs(|ps|, SerPairs(ps) + tail) == Good(ps, tail)
    decreases ps
  {
    hide SerPair, LoadPair, Fits;
    if |ps| > 0 {
      LoadInvertsSerPair(ps[0], SerPairs(ps[1..]) + tail);
      LoadInvertsSerPairs(ps[1..], tail);
      assert SerPairs(ps) + tail == SerPair(ps[0]) + (SerPairs(ps[1..]) + tail);
      assert [ps[0]] + ps[1..] == ps;
    }
  }

  lemma {:induction false} LoadInvertsSerPairsI(ps: seq<Pair>, tail: bytes)
    requires forall p :: p in ps ==> Fits(p.key) && Fits(p.val)
    ensures LoadPairsI(SerPairs(ps) + [BREAK] + tail) == Good(ps, tail)
    decreases ps
  {
    hide SerPair, LoadPair, Fits;
    if |ps| > 0 {
      LoadInvertsSerPair(ps[0], SerPairs(ps[1..]) + [BREAK] + tail);
      LoadInvertsSerPairsI(ps[1..], tail);
      assert SerPairs(ps) + [BREAK] + tail == SerPair(ps[0]) + (SerPairs(ps[1..]) + [BREAK] + tail);
      assert [ps[0]] + ps[1..] == ps;
    }
  }

  // ----------------------------------------- what follows, what is missing

  lemma {:induction false} HeadExtends(b: bytes, t: bytes)
    requires LoadHead(b).Head?
    ensures var h := LoadHead(b); LoadHead(b + t) == Head(h.major, h.width, h.arg, h.rest + t)
  {
    hide UnBe;
    assert (b + t)[0] == b[0] && (b + t)[1..] == b[1..] + t;
    var info := b[0] % 32;
    if info >= 24 {
      var w := if info == 24 then 1 else if info == 25 then 2 else if info == 26 then 4 else 8;
      assert (b + t)[1..1 + w] == b[1..1 + w] && (b + t)[1 + w..] == b[1 + w..] + t;
    }
  }

  /** Bytes behind an item play no part in how it is read. */
  lemma {:induction false} LoadExtends(b: bytes, t: bytes)
    requires Load(b).Good?
    ensures Load(b + t) == Good(Load(b).value, Load(b).rest + t)
    decreases |b|, 0
  {
    hide LoadHead;
    assert (b + t)[0] == b[0] && (b + t)[1..] == b[1..] + t;
    if b[0] % 32 == 31 {
      IndefiniteExtends(b, t);
    } else {
      HeadExtends(b, t);
      var h := LoadHead(b);
      if h.major == 2 || h.major == 3 {
        assert (h.rest + t)[..h.arg] == h.rest[..h.arg] && (h.rest + t)[h.arg..] == h.rest[h.arg..] + t;
      } else if h.major == 4 {
        ItemsExtend(h.arg, h.rest, t);
      } else if h.major == 5 {
        PairsExtend(h.arg, h.rest, t);
      } else if h.major == 6 {
        LoadExtends(h.rest, t);
      }
    }
  }

  lemma {:induction false} IndefiniteExtends(b: bytes, t: bytes)
    requires |b| > 0 && b[0] % 32 == 31 && LoadIndefinite(b[0] / 32, b).Good?
    ensures var r := LoadIndefinite(b[0] / 32, b); LoadIndefinite(b[0] / 32, b + t) == Good(r.value, r.rest + t)
    decreases |b| - 1, 3
  {
    var major := b[0] / 32;
    assert (b + t)[1..] == b[1..] + t;
    if major == 2 || major == 3 { ChunksExtend(major, b[1..], t); }
    else if major == 4 { ItemsIExtend(b[1..], t); }
    else if major == 5 { PairsIExtend(b[1..], t); }
  }

  lemma {:induction false} ChunksExtend(major: nat, b: bytes, t: bytes)
    requires LoadChunks(major, b).Good?
    ensures var r := LoadChunks(major, b); LoadChunks(major, b + t) == Good(r.value, r.rest + t)
    decreases |b|, 0
  {
    hide LoadHead;
    assert (b + t)[0] == b[0] && (b + t)[1..] == b[1..] + t;
    if b[0] != BREAK {
      HeadExtends(b, t);
      var h := LoadHead(b);
      assert (h.rest + t)[..h.arg] == h.rest[..h.arg] && (h.rest + t)[h.arg..] == h.rest[h.arg..] + t;
      ChunksExtend(major, h.rest[h.arg..], t);
    }
  }

  lemma {:induction false} ItemsExtend(n: nat, b: bytes, t: bytes)
    requires LoadItems(n, b).Good?
    ensures var r := LoadItems(n, b); LoadItems(n, b + t) == Good(r.value, r.rest + t)
    decreases |b|, 1
  {
    hide Load;
    if n > 0 {
      LoadExtends(b, t);
      ItemsExtend(n - 1, Load(b).rest, t);
    }
  }

  lemma {:induction false} PairExtends(b: bytes, t: bytes)
    requires LoadPair(b).Good?
    ensures LoadPair(b + t) == Good(LoadPair(b).value, LoadPair(b).rest + t)
    decreases |b|, 1
  {
    hide Load;
    LoadExtends(b, t);
    LoadExtends(Load(b).rest, t);
  }

  lemma {:induction false} PairsExtend(n: nat, b: bytes, t: bytes)
    requires LoadPairs(n, b).Good?
    ensures var r := LoadPairs(n, b); LoadPairs(n, b + t) == Good(r.value, r.rest + t)
    decreases |b|, 2
  {
    hide LoadPair;
    if n > 0 {
      PairExtends(b, t);
      PairsExtend(n - 1, LoadPair(b).rest, t);
    }
  }

  lemma {:induction false} ItemsIExtend(b: bytes, t: bytes)
    requires LoadItemsI(b).Good?
    ensures var r := LoadItemsI(b); LoadItemsI(b + t) == Good(r.value, r.rest + t)
    decreases |b|, 1
  {
    hide Load;
    assert (b + t)[0] == b[0] && (b + t)[1..] == b[1..] + t;
    if b[0] != BREAK {
      LoadExtends(b, t);
      ItemsIExtend(Load(b).rest, t);
    }
  }

  lemma {:induction false} PairsIExtend(b: bytes, t: bytes)
    requires LoadPairsI(b).Good?
    ensures var r := LoadPairsI(b); LoadPairsI(b + t) == Good(r.value, r.rest + t)
    decreases |b|, 2
  {
    hide LoadPair;
    assert (b + t)[0] == b[0] && (b + t)[1..] == b[1..] + t;
    if b[0] != BREAK {
      PairExtends(b, t);
      PairsIExtend(LoadPair(b).rest, t);
    }
  }

  /** A serialized item that is cut short is not read at all. */
  lemma {:induction false} CutIsBad(x: Item, k: nat)
    requires Fits(x) && k < |Ser(x)|
    ensures Load(Ser(x)[..k]) == Bad
  {
    hide Load, Ser, Fits;
    var cut, missing := Ser(x)[..k], Ser(x)[k..];
    LoadInvertsSer(x, []);
    assert Ser(x) + [] == Ser(x) && cut + missing == Ser(x);
    assert forall r: bytes {:trigger r + missing} :: |r + missing| > 0;
    if Load(cut).Good? { LoadExtends(cut, missing); }
  }

  lemma {:induction false} BeExamples()
    ensures Be(24, 1) == [24] && Be(32, 1) == [32] && Be(1000, 2) == [3, 232]
  {
    assert Be(24, 1) == Be(0, 0) + [24] && Be(32, 1) == Be(0, 0) + [32];
    assert Be(3, 1) == Be(0, 0) + [3] && Be(1000, 2) == Be(3, 1) + [232];
  }

  /** Examples of appendix A of RFC 8949: numbers, strings, a tag and a constant. */
  lemma {:induction false} SerExamples()
    ensures Ser(UInt(1, 10)) == [0x0a] && Ser(UInt(1, 24)) == [0x18, 0x18]
    ensures Ser(UInt(2, 1000)) == [0x19, 0x03, 0xe8] && Ser(NInt(1, 9)) == [0x29]
    ensures Ser(BStr([1, 2, 3, 4])) == [0x44, 1, 2, 3, 4] && Ser(TStr([0x61])) == [0x61, 0x61]
    ensures Ser(Simple(1, 20)) == [0xf4]
  {
    hide Be;
    BeExamples();
  }

  /** Examples of appendix A of RFC 8949: arrays. */
  lemma {:induction false} SerArrayExamples()
    ensures Ser(Array([UInt(1, 1), UInt(1, 2)])) == [0x82, 1, 2] && Ser(ArrayI([])) == [0x9f, 0xff]
  {
    hide Be, SerInt, SerPairs, SerChunks;
    var xs := [UInt(1, 1), UInt(1, 2)];
    assert xs[1..] == [UInt(1, 2)] && xs[1..][1..] == [];
    SmallInt(1);
    SmallInt(2);
    assert SerItems(xs[1..]) == [2] + SerItems([]);
    assert SerItems(xs) == [1] + SerItems(xs[1..]);
  }

  lemma {:induction false} SmallInt(n: nat)
    requires n < 24
    ensures Ser(UInt(1, n)) == [n]
  {
    hide Be;
  }

  /** Examples of appendix A of RFC 8949: maps. */
  lemma {:induction false} SerMapExamples()
    ensures Ser(Map([Pair(UInt(1, 1), UInt(1, 2))])) == [0xa1, 1, 2] && Ser(MapI([])) == [0xbf, 0xff]
  {
    hide Be, SerInt, SerItems, SerChunks;
    SmallInt(1);
    SmallInt(2);
    var ps := [Pair(UInt(1, 1), UInt(1, 2))];
    assert ps[1..] == [] && SerPairs(ps) == SerPair(ps[0]) + SerPairs([]);
  }

  /** Examples of appendix A of RFC 8949: strings in chunks, a tag. */
  lemma {:induction false} SerOtherExamples()
    ensures Ser(Chunks(false, [[1, 2]])) == [0x5f, 0x42, 1, 2, 0xff] && Ser(Chunks(true, [])) == [0x7f, 0xff]
    ensures Ser(Tag(32, TStr([]))) == [0xd8, 0x20, 0x60]
  {
    hide Be;
    BeExamples();
    assert Ser(TStr([])) == [0x60] && SerHead(6, 32) == [0xd8, 0x20];
    var cs: seq<bytes> := [[1, 2]];
    assert cs[1..] == [] && SerChunks(2, cs) == SerHead(2, 2) + [1, 2] + SerChunks(2, []);
  }

  // ------------------------------------------------------------- accessors

  /** cbor_load of a complete buffer: the first item; bytes behind it are ignored. */
  function LoadItem(b: bytes): Option<Item>
  {
    match Load(b) { case Bad => None case Good(x, _) => Some(x) }
  }

  lemma {:induction false} LoadItemInverts(x: Item)
    requires Fits(x)
    ensures LoadItem(Ser(x)) == Some(x)
  {
    LoadInvertsSer(x, []);
    assert Ser(x) + [] == Ser(x);
  }

  /** Bytes behind the item are ignored, a missing byte is an error. */
  lemma {:induction false} LoadItemExact(x: Item, tail: bytes, k: nat)
    requires Fits(x) && k < |Ser(x)|
    ensures LoadItem(Ser(x) + tail) == Some(x) && LoadItem(Ser(x)[..k]) == None
  {
    hide Load, Ser, Fits;
    LoadInvertsSer(x, tail);
    CutIsBad(x, k);
  }

  /** cbor_isa_map and cbor_isa_array hold of both forms, definite or not. */
  function PairsOf(x: Item): Option<seq<Pair>> { if x.Map? || x.MapI? then Some(x.pairs) else None }

  function ItemsOf(x: Item): Option<seq<Item>> { if x.Array? || x.ArrayI? then Some(x.items) else None }

  /** A chunked string also passes cbor_isa_string or cbor_isa_bytestring, but its handle is the table
      of its chunks. */
  predicate ChunkedText(x: Item) { x.Chunks? && x.text }

  predicate ChunkedBytes(x: Item) { x.Chunks? && !x.text }

  /** `strncmp(lit, key, |key|) == 0` for a literal `lit` and key bytes that carry no terminator:
      the key is a prefix of the literal, or the literal, its NUL, and anything behind. */
  predicate KeyMatches(lit: cstring, key: bytes)
  {
    key <= lit || (|key| > |lit| && key[..|lit|] == lit && key[|lit|] == 0)
  }

  /** strncmp(lit, key, |key|) == 0, byte by byte; the literal ends with a NUL. */
  predicate StrNEq(lit: cstring, key: bytes)
  {
    |key| == 0
    || (if |lit| == 0 then key[0] == 0 else lit[0] == key[0] && StrNEq(lit[1..], key[1..]))
  }

  lemma {:induction false} KeyMatchesExact(lit: cstring, key: bytes)
    ensures KeyMatches(lit, key) <==> StrNEq(lit, key)
  {
    if |lit| > 0 && |key| > 0 && lit[0] == key[0] {
      KeyMatchesExact(lit[1..], key[1..]);
      if key <= lit { assert key[1..] == lit[1..][..|key| - 1]; }
      if key[1..] <= lit[1..] { assert key == lit[..|key|]; }
      if |key| > |lit| {
        assert key[..|lit|] == [key[0]] + key[1..][..|lit| - 1] && lit == [lit[0]] + lit[1..];
        assert key[..|lit|][1..] == key[1..][..|lit| - 1];
      }
    }
  }

  /** First bytes nothing begins with: reserved lengths, a break, numbers and tags of indefinite length,
      and the simple values outside those of `SimpleHead`. */
  lemma {:induction false} BadFirstByte(b: bytes)
    requires |b| > 0
    requires var major, info := b[0] / 32, b[0] % 32;
      || info == 28 || info == 29 || info == 30
      || (info == 31 && (major == 0 || major == 1 || major == 6 || major == 7))
      || (major == 7 && (info < 20 || info == 24))
    ensures Load(b) == Bad && LoadItem([]) == None
  {}
}

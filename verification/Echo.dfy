// The native-messaging echo host: length-prefixed frames are copied from one stream to another,
// whatever pieces fread and fwrite work in.
module Echo {
  import opened Bytes

  const MAX_ECHO_MESSAGE: nat := 1024 * 1024

  /** A FILE being read: fread may return any positive part of what is asked and available, nothing
      at the end of the data, or nothing because of an error. */
  class InFile {
    const data: bytes
    var pos: nat
    var error: bool

    constructor (data: bytes)
      ensures this.data == data && pos == 0 && !error
    {
      this.data, pos, error := data, 0, false;
    }

    method Fread(size: nat) returns (b: bytes)
      requires pos <= |data| && size > 0
      modifies this
      ensures pos <= |data| && old(pos) + |b| == pos && b == data[old(pos)..pos] && |b| <= size
      ensures b == [] ==> error || pos == |data|
      ensures old(error) ==> error
    {
      if pos == |data| { return []; }
      if * {
        error := true;
        return [];
      }
      var n: nat :| 1 <= n <= size && pos + n <= |data|;
      b := data[pos..pos + n];
      pos := pos + n;
    }
  }

  /** A FILE being written: fwrite may take any positive part, or nothing because of an error. */
  class OutFile {
    var out: bytes
    var error: bool

    constructor ()
      ensures out == [] && !error
    {
      out, error := [], false;
    }

    method Fwrite(b: bytes) returns (n: nat)
      requires b != []
      modifies this
      ensures n <= |b| && out == old(out) + b[..n]
      ensures n == 0 ==> error
      ensures n > 0 ==> error == old(error)
    {
      if * {
        error := true;
        n := 0;
      } else {
        n :| 1 <= n <= |b|;
        out := out + b[..n];
      }
      assert old(out) + b[..0] == old(out);
    }

    method Fflush() returns (ok: bool)
      modifies this
      ensures out == old(out) && error == (old(error) || !ok)
    {
      ok := *;
      error := error || !ok;
    }
  }

  /** read_exact: 1 with all bytes, 0 at the end of the data, -1 on an error. */
  method ReadExact(fp: InFile, size: nat) returns (rc: int, buf: bytes)
    requires fp.pos <= |fp.data|
    modifies fp
    ensures fp.pos <= |fp.data| && (old(fp.error) ==> fp.error)
    ensures rc == 1 ==> fp.pos == old(fp.pos) + size && buf == fp.data[old(fp.pos)..fp.pos]
    ensures rc == 0 ==> old(fp.pos) + size > |fp.data|
    ensures rc == -1 ==> fp.error
    ensures rc == 1 || rc == 0 || rc == -1
  {
    buf := [];
    ghost var start := fp.pos;
    var done := 0;
    while done < size
      invariant done == |buf| <= size && start <= fp.pos <= |fp.data| && fp.pos == start + done
      invariant buf == fp.data[start..fp.pos] && (old(fp.error) ==> fp.error)
    {
      var b := fp.Fread(size - done);
      if b == [] {
        if fp.pos == |fp.data| { return 0, []; }
        return -1, [];
      }
      ghost var prev := start + done;
      assert fp.data[start..prev] + fp.data[prev..fp.pos] == fp.data[start..fp.pos];
      buf := buf + b;
      done := done + |b|;
    }
    rc := 1;
  }

  /** write_exact: 0 when everything was written, -1 after an error part of the way. */
  method WriteExact(fp: OutFile, b: bytes) returns (rc: int)
    modifies fp
    ensures rc == 0 ==> fp.out == old(fp.out) + b && fp.error == old(fp.error)
    ensures rc == -1 ==> fp.error && old(fp.out) <= fp.out <= old(fp.out) + b
    ensures rc == 0 || rc == -1
  {
    var done := 0;
    while done < |b|
      invariant done <= |b| && fp.out == old(fp.out) + b[..done] && fp.error == old(fp.error)
    {
      var n := fp.Fwrite(b[done..]);
      assert b[..done] + b[done..][..n] == b[..done + n];
      if n == 0 { return -1; }
      done := done + n;
    }
    rc := 0;
  }

  /** Where the complete valid frames from `p` on end. */
  function FramesEnd(data: bytes, p: nat): (e: nat)
    requires p <= |data|
    ensures p <= e <= |data|
    decreases |data| - p
  {
    if p + 4 > |data| then p else
      var len := UnLe(data[p..p + 4]);
      if len == 0 || len > MAX_ECHO_MESSAGE || p + 4 + len > |data| then p
      else FramesEnd(data, p + 4 + len)
  }

  /** main: the output is exactly the complete valid frames before the first bad length or the end of
      input; with an I/O error it is a beginning of them.  The exit is successful exactly when the
      input ends in, or before, a length field, so a frame cut inside its length field passes for a
      clean end. */
  method EchoHost(fin: InFile, fout: OutFile) returns (success: bool)
    requires fin.pos == 0 && !fin.error && !fout.error && fout.out == []
    modifies fin, fout
    ensures !fin.error && !fout.error ==> fout.out == fin.data[..FramesEnd(fin.data, 0)]
    ensures fout.out <= fin.data[..FramesEnd(fin.data, 0)]
    ensures !fin.error && !fout.error ==> (success <==> FramesEnd(fin.data, 0) + 4 > |fin.data|)
    ensures success ==> fout.out == fin.data[..FramesEnd(fin.data, 0)] && FramesEnd(fin.data, 0) + 4 > |fin.data|
  {
    ghost var data, end := fin.data, FramesEnd(fin.data, 0);
    ghost var p := 0;
    while true
      invariant fin.pos == p <= |data| && !fout.error
      invariant FramesEnd(data, p) == end && fout.out == data[..p]
      decreases |data| - p
    {
      var rc, head := ReadExact(fin, 4);
      if rc == 0 { return true; }
      if rc < 0 { return false; }
      var len := UnLe(head);
      if len == 0 || len > MAX_ECHO_MESSAGE { return false; }
      var message;
      rc, message := ReadExact(fin, len);
      if rc <= 0 { return false; }
      FrameSteps(data, p, len, head, message);
      var wr := WriteExact(fout, head);
      PrefixWithin(fout.out, data, p + 4, end);
      if wr < 0 { return false; }
      wr := WriteExact(fout, message);
      PrefixWithin(fout.out, data, p + 4 + len, end);
      if wr < 0 { return false; }
      var flushed := fout.Fflush();
      if !flushed { return false; }
      p := p + 4 + len;
    }
  }

  lemma {:induction false} FrameSteps(data: bytes, p: nat, len: nat, head: bytes, message: bytes)
    requires p + 4 + len <= |data|
    requires head == data[p..p + 4] && len == UnLe(head) && 0 < len <= MAX_ECHO_MESSAGE
    requires message == data[p + 4..p + 4 + len]
    ensures FramesEnd(data, p) == FramesEnd(data, p + 4 + len)
    ensures data[..p] + head == data[..p + 4] && data[..p + 4] + message == data[..p + 4 + len]
  {}

  lemma {:induction false} PrefixWithin(out: bytes, data: bytes, b: nat, end: nat)
    requires b <= end <= |data| && out <= data[..b]
    ensures out <= data[..end]
  {
    assert data[..b] == data[..end][..b];
  }

  // ------------------------------------------------------ meaning of frames

  /** A message as Chrome frames it: length in native byte order, then the bytes. */
  function Frame(m: bytes): bytes { Le(|m|, 4) + m }

  function Framed(ms: seq<bytes>): bytes { if |ms| == 0 then [] else Frame(ms[0]) + Framed(ms[1..]) }

  /** No complete valid frame starts here. */
  ghost predicate NoFrame(rest: bytes) { FramesEnd(rest, 0) == 0 }

  lemma {:induction false} FramesEndShift(a: bytes, rest: bytes, p: nat)
    requires p <= |rest|
    ensures FramesEnd(a + rest, |a| + p) == |a| + FramesEnd(rest, p)
    decreases |rest| - p
  {
    if p + 4 <= |rest| {
      assert (a + rest)[|a| + p..|a| + p + 4] == rest[p..p + 4];
      var len := UnLe(rest[p..p + 4]);
      if len != 0 && len <= MAX_ECHO_MESSAGE && p + 4 + len <= |rest| {
        FramesEndShift(a, rest, p + 4 + len);
      }
    }
  }

  /** Messages within the size limit are echoed completely, and nothing behind them. */
  lemma {:induction false} MessagesAreEchoed(ms: seq<bytes>, rest: bytes)
    requires forall i :: 0 <= i < |ms| ==> 0 < |ms[i]| <= MAX_ECHO_MESSAGE
    requires NoFrame(rest)
    ensures var data := Framed(ms) + rest; data[..FramesEnd(data, 0)] == Framed(ms)
  {
    var data := Framed(ms) + rest;
    if |ms| == 0 {
      assert data == rest;
    } else {
      var f, tail := Frame(ms[0]), Framed(ms[1..]) + rest;
      assert data == f + tail;
      Pow256Values();
      LeRoundTrip(|ms[0]|, 4);
      assert data[0..4] == Le(|ms[0]|, 4);
      FramesEndShift(f, tail, 0);
      MessagesAreEchoed(ms[1..], rest);
      assert FramesEnd(data, 0) == |f| + FramesEnd(tail, 0);
      assert data[..|f| + FramesEnd(tail, 0)] == f + tail[..FramesEnd(tail, 0)];
    }
  }

  /** Nothing is echoed of data that begins with no complete length, a length of zero or above one
      mebibyte, or a message cut short; and only of such data. */
  lemma {:induction false} NoFrameExact(rest: bytes)
    ensures NoFrame(rest) <==>
      |rest| < 4 || UnLe(rest[..4]) == 0 || UnLe(rest[..4]) > 1_048_576 || |rest| < 4 + UnLe(rest[..4])
  {
    assert |rest| >= 4 ==> rest[0..4] == rest[..4];
  }
}

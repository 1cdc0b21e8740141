/**
  Frames on a byte stream that may deliver and accept any number of bytes at a time.
 */
module WireFrames {
  import opened Basics
  import opened WireCodec

  const MAX_DIAGNOSTIC: nat := 0x1_0000

  const TAG_META: byte := 0x01
  const TAG_ROW: byte := 0x02
  const TAG_COMMAND_OK: byte := 0x10
  const TAG_RESULT_END: byte := 0x11
  const TAG_ABORT: byte := 0x12
  const TAG_ERROR: byte := 0x13
  const TAG_EXEC: byte := 0x20

  datatype Frame = Frame(tag: byte, flags: byte, payload: Bytes)

  predicate IsDiagnostic(tag: byte)
  {
    tag == TAG_ERROR || tag == TAG_ABORT
  }

  /** The frame is within the limits of the protocol. */
  predicate FrameOk(f: Frame)
  {
    |f.payload| <= MAX_PAYLOAD && (IsDiagnostic(f.tag) ==> |f.payload| <= MAX_DIAGNOSTIC)
  }

  function HeaderBytes(f: Frame): (b: Bytes)
    requires FrameOk(f)
    ensures |b| == 8
  {
    U32(|f.payload|) + [f.tag, f.flags, 0, 0]
  }

  function FrameBytes(f: Frame): (b: Bytes)
    requires FrameOk(f)
    ensures |b| == 8 + |f.payload|
  {
    HeaderBytes(f) + f.payload
  }

  /** What a read header announces: a payload length, unless the header is malformed. */
  function Announced(h: Bytes): Option<nat>
    requires |h| == 8
  {
    var n := FromU32(h[..4]);
    if n > MAX_PAYLOAD || (IsDiagnostic(h[4]) && n > MAX_DIAGNOSTIC) || h[6] != 0 || h[7] != 0 then None else Some(n)
  }

  /** Four bytes of length, the most significant first, then tag, flags and two zeros, then the payload. */
  lemma FrameLayout(f: Frame)
    requires FrameOk(f)
    ensures var b := FrameBytes(f);
      && |f.payload| == 0x100_0000 * b[0] as int + 0x1_0000 * b[1] as int + 0x100 * b[2] as int + b[3] as int
      && b[4] == f.tag && b[5] == f.flags && b[6] == 0 && b[7] == 0 && b[8..] == f.payload
  {
    U32Weights(|f.payload|);
    hide U32;
  }

  lemma AnnouncedExact(h: Bytes, f: Frame)
    requires |h| == 8
    ensures FrameOk(f) && h == HeaderBytes(f) <==> Announced(h) == Some(|f.payload|) && h[4] == f.tag && h[5] == f.flags
  {
    if FrameOk(f) {
      var b := HeaderBytes(f);
      U32RoundTrip(|f.payload|);
      assert b[..4] == U32(|f.payload|);
    }
    if Announced(h) == Some(|f.payload|) && h[4] == f.tag && h[5] == f.flags {
      assert h == h[..4] + [h[4], h[5], h[6], h[7]];
    }
  }

  /** No frame is a proper beginning of another: what is read is what was written. */
  lemma FramesAreUnique(f: Frame, a: Bytes, g: Frame, b: Bytes)
    requires FrameOk(f) && FrameOk(g) && FrameBytes(f) + a == FrameBytes(g) + b
    ensures f == g && a == b
  {
    var all := FrameBytes(f) + a;
    assert HeaderBytes(f) == all[..8] == HeaderBytes(g);
    AnnouncedExact(all[..8], f);
    AnnouncedExact(all[..8], g);
    var n := |f.payload|;
    assert f.payload == all[8..8 + n] == g.payload;
    assert a == all[8 + n..] == b;
  }

  function Concat(vs: seq<Bytes>): Bytes
  {
    if vs == [] then [] else vs[0] + Concat(vs[1..])
  }

  /** Writing the frame put it out whole, or as much of it as the peer took. */
  predicate Wrote(f: Frame, ok: bool, before: Bytes, after: Bytes, room: nat)
    requires FrameOk(f)
  {
    before <= after <= before + FrameBytes(f) && (ok <==> after == before + FrameBytes(f)) && (!ok ==> room == 0)
  }

  datatype FrameRead = Got(frame: Frame) | BadFrame | NoFrame

  class Connection {
    var input: Bytes   // what the peer delivers before reading fails
    var output: Bytes  // what was handed to the peer
    var room: nat      // how much the peer takes before writing fails

    constructor (input: Bytes, room: nat)
      ensures this.input == input && this.output == [] && this.room == room
    {
      this.input := input;
      this.output := [];
      this.room := room;
    }

    /** Delivers some bytes, at most n; none exactly if reading fails. */
    method Recv(n: nat) returns (b: Bytes)
      requires n > 0
      modifies this`input
      ensures old(input) == b + input && |b| <= n && (b == [] <==> old(input) == [])
    {
      if input == [] { return []; }
      var k: nat :| 1 <= k <= n && k <= |input|;
      b := input[..k];
      input := input[k..];
    }

    method ReadExact(n: nat) returns (r: Option<Bytes>)
      modifies this`input
      ensures r.Some? <==> n <= |old(input)|
      ensures r.Some? ==> r.value == old(input)[..n] && input == old(input)[n..]
    {
      var got: Bytes := [];
      while |got| < n
        invariant old(input) == got + input && |got| <= n
        decreases n - |got|
      {
        var b := Recv(n - |got|);
        if b == [] { return None; }
        got := got + b;
      }
      return Some(got);
    }

    /** Takes some bytes from the front of the vectors; none exactly if writing fails. */
    method SendMsg(vectors: seq<Bytes>) returns (written: nat)
      modifies this`output, this`room
      ensures written <= |Concat(vectors)| && written <= old(room) && room == old(room) - written
      ensures written == 0 <==> old(room) == 0 || Concat(vectors) == []
      ensures output == old(output) + Concat(vectors)[..written]
    {
      var all := Concat(vectors);
      if room == 0 || all == [] { assert output + all[..0] == output; return 0; }
      written :| 1 <= written <= |all| && written <= room;
      output := output + all[..written];
      room := room - written;
    }

    /** The vectors that are left when the first bytes are taken. */
    static method Advance(vectors: seq<Bytes>, taken: nat) returns (rest: seq<Bytes>)
      requires taken <= |Concat(vectors)|
      ensures Concat(rest) == Concat(vectors)[taken..] && (rest != [] ==> Concat(rest) != [])
    {
      rest := vectors;
      var consumed: nat := taken;
      while rest != [] && consumed >= |rest[0]|
        invariant consumed <= |Concat(rest)| && Concat(rest)[consumed..] == Concat(vectors)[taken..]
      {
        consumed, rest := consumed - |rest[0]|, rest[1..];
      }
      if rest != [] {
        var tail := rest[1..];
        if consumed != 0 { rest := [rest[0][consumed..]] + tail; }
        assert rest[1..] == tail;
      }
    }

    /** Writes all vectors in order, whatever pieces the peer takes them in. */
    method WriteVectorsAll(vectors: seq<Bytes>) returns (ok: bool)
      modifies this`output, this`room
      ensures ok <==> |Concat(vectors)| <= old(room) && (vectors == [] || Concat(vectors) != [])
      ensures old(output) <= output <= old(output) + Concat(vectors) && (!ok && Concat(vectors) != [] ==> room == 0)
      ensures room + |output| == old(room) + |old(output)| && (ok ==> output == old(output) + Concat(vectors))
    {
      var rest := vectors;
      ghost var all := Concat(vectors);
      ghost var sent: nat := 0;
      hide Concat;
      while rest != []
        invariant rest != [] && Concat(rest) == [] ==> rest == vectors
        invariant rest == [] ==> vectors == [] || all != []
        invariant sent <= |all| && Concat(rest) == all[sent..] && room == old(room) - sent && output == old(output) + all[..sent]
        decreases |Concat(rest)|
      {
        var taken := SendMsg(rest);
        CutFurther(all, sent, taken);
        if taken == 0 { return false; }
        rest := Advance(rest, taken);
        sent := sent + taken;
      }
      return true;
    }

    /** Writes one frame; an oversized one is refused before anything is sent. */
    method WriteFrame(tag: byte, flags: byte, payload: Bytes) returns (ok: bool)
      modifies this`output, this`room
      ensures ok <==> FrameOk(Frame(tag, flags, payload)) && |FrameBytes(Frame(tag, flags, payload))| <= old(room)
      ensures !FrameOk(Frame(tag, flags, payload)) ==> output == old(output) && room == old(room)
      ensures room + |output| == old(room) + |old(output)|
      ensures FrameOk(Frame(tag, flags, payload)) ==>
        Wrote(Frame(tag, flags, payload), ok, old(output), output, room)
    {
      if |payload| > MAX_PAYLOAD || (IsDiagnostic(tag) && |payload| > MAX_DIAGNOSTIC) { return false; }
      var header := U32(|payload|) + [tag, flags, 0, 0];
      var vectors := [header];
      if payload != [] { vectors := vectors + [payload]; }
      VectorsOf(header, payload);
      ok := WriteVectorsAll(vectors);
    }

    /** Reads one frame: a well-formed one is returned whole, with the stream right behind it. */
    method ReadFrame() returns (r: FrameRead)
      modifies this`input
      ensures r.Got? ==> FrameOk(r.frame) && old(input) == FrameBytes(r.frame) + input
      ensures r.BadFrame? <==> |old(input)| >= 8 && Announced(old(input)[..8]) == None
      ensures forall f :: FrameOk(f) && FrameBytes(f) <= old(input) ==> r == Got(f)
    {
      ghost var all := input;
      forall f | FrameOk(f) && FrameBytes(f) <= all
        ensures |all| >= 8 + |f.payload| && all[..8] == HeaderBytes(f) && all[8..8 + |f.payload|] == f.payload
      {
        assert FrameBytes(f) == all[..8 + |f.payload|];
      }
      var header := ReadExact(8);
      if header.None? { return NoFrame; }
      var h := header.value;
      forall f | FrameOk(f) && FrameBytes(f) <= all
        ensures Announced(h) == Some(|f.payload|) && h[4] == f.tag && h[5] == f.flags
      {
        AnnouncedExact(h, f);
      }
      var n := Announced(h);
      if n.None? { return BadFrame; }
      var payload := ReadExact(n.value);
      if payload.None? { return NoFrame; }
      var f := Frame(h[4], h[5], payload.value);
      AnnouncedExact(h, f);
      assert all == h + all[8..] && all[8..] == payload.value + input;
      return Got(f);
    }
  }

  lemma CutFurther<T>(s: seq<T>, n: nat, k: nat)
    requires n + k <= |s|
    ensures s[..n] + s[n..][..k] == s[..n + k] && s[n..][k..] == s[n + k..]
  {}

  lemma VectorsOf(header: Bytes, payload: Bytes)
    ensures Concat([header]) == header && Concat([header] + [payload]) == header + payload
    ensures payload == [] ==> header + payload == header
  {
    assert [header][1..] == [];
    assert ([header] + [payload])[1..] == [payload] && [payload][1..] == [];
  }
}

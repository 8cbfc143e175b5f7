/** Frames on a byte stream: the header the sender writes, the scanner the receiver
runs, and the buffer that carries a partial frame from one datagram to the next.

The checksum and the compressor are library calls; they are parameters of the model, and
so is whether the handler of a message throws.
 */
module Framing {
  import opened Bytes
  import opened Options

  const HEADER_SIZE := 9
  const NULL_ARRAY := 0xFFFF_FFFF

  datatype Codec = Codec(
    checksum: seq<byte> -> int,
    compress: seq<byte> -> seq<byte>,
    uncompress: seq<byte> -> seq<byte>,
    /** The handler of a frame throws, after the given frames were handled. */
    throws: (seq<Frame>, Frame) -> bool)
  {
    /** What is assumed of the library: a 16-bit checksum, and a compressor that is
        inverted by the decompressor and grows its input by little. */
    ghost predicate Valid() {
      && (forall s :: 0 <= checksum(s) < 0x1_0000)
      && (forall s :: s != [] ==> uncompress(compress(s)) == s)
      && (forall s :: s != [] ==> 0 < |compress(s)| <= |s| + |s| / 100 + 17)
    }
  }

  datatype Flags = Flags(repeated: bool, fragmentQuery: bool, fragment: bool, answer: bool, compressed: bool)

  function Bit(b: bool, weight: nat): nat {
    if b then weight else 0
  }

  function FlagsByte(f: Flags): byte {
    (Bit(f.repeated, 0x08) + Bit(f.fragmentQuery, 0x10) + Bit(f.fragment, 0x20) +
    Bit(f.answer, 0x40) + Bit(f.compressed, 0x80)) as byte
  }

  function FlagsOf(b: byte): Flags {
    var n := b as int;
    Flags(n / 0x08 % 2 == 1, n / 0x10 % 2 == 1, n / 0x20 % 2 == 1, n / 0x40 % 2 == 1, n / 0x80 % 2 == 1)
  }

  lemma FlagsRoundTrip(f: Flags)
    ensures FlagsOf(FlagsByte(f)) == f
  {
    var n := FlagsByte(f) as int;
    var r, q, g, a, c := Bit(f.repeated, 1), Bit(f.fragmentQuery, 1), Bit(f.fragment, 1), Bit(f.answer, 1), Bit(f.compressed, 1);
    assert n / 0x08 == r + 2 * (q + 2 * (g + 2 * (a + 2 * c)));
    assert n / 0x10 == q + 2 * (g + 2 * (a + 2 * c));
    assert n / 0x20 == g + 2 * (a + 2 * c);
    assert n / 0x40 == a + 2 * c;
    assert n / 0x80 == c;
  }

  datatype Frame = Frame(id: byte, cmd: byte, flags: Flags, payload: seq<byte>)

  /** The seven checksummed bytes of a header. */
  function Head(f: Frame): (s: seq<byte>)
    requires |f.payload| < NULL_ARRAY
    ensures |s| == 7
  {
    [f.id, f.cmd, FlagsByte(f.flags)] + PutU32(|f.payload|)
  }

  function FrameBytes(codec: Codec, f: Frame): seq<byte>
    requires |f.payload| < NULL_ARRAY
    requires 0 <= codec.checksum(Head(f)) < 0x1_0000
  {
    PutU16(codec.checksum(Head(f))) + Head(f) + f.payload
  }

  /** The layout of a header: id, command, one bit per flag from bit 3 on, and the size with
      its high byte first. */
  lemma HeadLayout(f: Frame)
    requires |f.payload| < NULL_ARRAY
    ensures var h := Head(f);
            && h[0] == f.id && h[1] == f.cmd && BitsOf(h[2] as int, f.flags)
            && ((h[3] as int * 0x100 + h[4] as int) * 0x100 + h[5] as int) * 0x100 + h[6] as int == |f.payload|
  {
    FlagBits(f.flags);
    HeadSize(f);
  }

  /** Each flag has its own bit, and the lower three bits are not used. */
  predicate BitsOf(b: int, f: Flags) {
    && b % 0x08 == 0
    && (b / 0x08 % 2 == 1 <==> f.repeated) && (b / 0x10 % 2 == 1 <==> f.fragmentQuery)
    && (b / 0x20 % 2 == 1 <==> f.fragment) && (b / 0x40 % 2 == 1 <==> f.answer)
    && (b / 0x80 % 2 == 1 <==> f.compressed)
  }

  lemma FlagBits(f: Flags)
    ensures BitsOf(FlagsByte(f) as int, f)
  {
    FlagsRoundTrip(f);
  }

  lemma HeadSize(f: Frame)
    requires |f.payload| < NULL_ARRAY
    ensures GetU32(Head(f)[3..7]) == |f.payload|
  {
    U32RoundTrip(|f.payload|);
    assert Head(f)[3..7] == PutU32(|f.payload|);
  }

  /** What the receiver makes of the front of its buffer. */
  datatype Scan = TooBig | Corrupt | Incomplete | Complete(frame: Frame)

  function PayloadSize(buffer: seq<byte>): uint32
    requires |buffer| >= HEADER_SIZE
  {
    var size := GetU32(buffer[5..9]);
    if size == NULL_ARRAY then 0 else size
  }

  function ScanFront(codec: Codec, buffer: seq<byte>): (r: Scan)
    requires |buffer| >= HEADER_SIZE
    ensures r.Complete? ==> HEADER_SIZE + |r.frame.payload| <= |buffer|
  {
    var size := PayloadSize(buffer);
    if size > MAX_MESSAGE_SIZE then TooBig
    else if GetU16(buffer[..2]) != codec.checksum(buffer[2..9]) then Corrupt
    else if |buffer| - HEADER_SIZE < size then Incomplete
    else Complete(Frame(buffer[2], buffer[3], FlagsOf(buffer[4]), buffer[9..9 + size]))
  }

  /** The converse of the round trip: what the bytes of a header lead to.  It is accepted only
      if its two checksum bytes are those of its other seven. */
  lemma ScanExact(codec: Codec, buffer: seq<byte>)
    requires codec.Valid() && |buffer| >= 9
    ensures var n, r := GetU32(buffer[5..9]), ScanFront(codec, buffer);
            var size := if n == 0xFFFF_FFFF then 0 else n;
            && (r.TooBig? <==> size > 0x8000_0000)
            && (r.Corrupt? <==> size <= 0x8000_0000 && buffer[..2] != PutU16(codec.checksum(buffer[2..9])))
            && (r.Incomplete? <==> |buffer| < 9 + size && size <= 0x8000_0000
                                   && buffer[..2] == PutU16(codec.checksum(buffer[2..9])))
            && (r.Complete? ==>
                  && 9 + size <= |buffer| && r.frame.payload == buffer[9..9 + size]
                  && r.frame.id == buffer[2] && r.frame.cmd == buffer[3] && r.frame.flags == FlagsOf(buffer[4]))
  {
    U16RoundTrip(codec.checksum(buffer[2..9]));
    U16Bytes(buffer[..2]);
  }

  lemma FlagsBytes(b: byte)
    requires b as int % 0x08 == 0
    ensures FlagsByte(FlagsOf(b)) == b
  {
    var n := b as int / 0x08;
    var n1 := n / 2;
    var n2 := n1 / 2;
    var n3 := n2 / 2;
    var n4 := n3 / 2;
    var f := Flags(n % 2 == 1, n1 % 2 == 1, n2 % 2 == 1, n3 % 2 == 1, n4 == 1);
    assert n == n % 2 + 2 * n1 && n1 == n1 % 2 + 2 * n2 && n2 == n2 % 2 + 2 * n3 && n3 == n3 % 2 + 2 * n4;
    assert FlagsByte(f) == b;
    FlagsRoundTrip(f);
  }

  /** What is accepted is what the sender writes for that frame, byte for byte, if the three
      unused bits of the flags are clear and the size is written out. */
  lemma AcceptedIsEncoded(codec: Codec, buffer: seq<byte>, f: Frame)
    requires codec.Valid() && |buffer| >= 9 && ScanFront(codec, buffer) == Complete(f)
    requires buffer[4] as int % 8 == 0 && GetU32(buffer[5..9]) != 0xFFFF_FFFF
    ensures |f.payload| < NULL_ARRAY && buffer[..FrameSize(f)] == FrameBytes(codec, f)
  {
    ScanExact(codec, buffer);
    FlagsBytes(buffer[4]);
    U32Bytes(buffer[5..9]);
    assert Head(f) == buffer[2..9];
    assert buffer[..FrameSize(f)] == buffer[..2] + buffer[2..9] + buffer[9..FrameSize(f)];
  }

  /** A header with a wrong checksum, in whichever byte, makes the scan fail where it is. */
  lemma CorruptFails(codec: Codec, buffer: seq<byte>, delivered: seq<Frame>)
    requires codec.Valid() && |buffer| >= 9 && buffer[..2] != PutU16(codec.checksum(buffer[2..9]))
    requires GetU32(buffer[5..9]) <= 0x8000_0000 || GetU32(buffer[5..9]) == 0xFFFF_FFFF
    ensures Drain(codec, buffer, delivered) == Drained(Failed, delivered, buffer)
  {
    ScanExact(codec, buffer);
  }

  /** A size beyond the limit drops everything, with whatever checksum. */
  lemma OversizedDrops(codec: Codec, buffer: seq<byte>, delivered: seq<Frame>)
    requires codec.Valid() && |buffer| >= 9 && 0x8000_0000 < GetU32(buffer[5..9]) < 0xFFFF_FFFF
    ensures Drain(codec, buffer, delivered) == Drained(Dropped, delivered, [])
  {
    ScanExact(codec, buffer);
  }

  function FrameSize(f: Frame): nat {
    HEADER_SIZE + |f.payload|
  }

  datatype Outcome = Waiting | Dropped | Failed

  /** Where a scan ends: the frames handed on, and the bytes not consumed. */
  datatype Drained = Drained(outcome: Outcome, delivered: seq<Frame>, rest: seq<byte>)

  /** Hands on frame after frame; a size beyond the limit drops the whole buffer, a bad
      checksum stops with a failure, and so does a handler that throws, behind the header
      of its frame. */
  function Drain(codec: Codec, buffer: seq<byte>, delivered: seq<Frame>): Drained
    decreases |buffer|
  {
    if |buffer| < HEADER_SIZE then Drained(Waiting, delivered, buffer) else
    match ScanFront(codec, buffer)
    case TooBig => Drained(Dropped, delivered, [])
    case Corrupt => Drained(Failed, delivered, buffer)
    case Incomplete => Drained(Waiting, delivered, buffer)
    case Complete(f) =>
      if codec.throws(delivered, f) then Drained(Failed, delivered, buffer[HEADER_SIZE..])
      else Drain(codec, buffer[FrameSize(f)..], delivered + [f])
  }

  /** Frames followed by the beginning of one. */
  ghost predicate WellFormedStream(codec: Codec, buffer: seq<byte>) {
    Drain(codec, buffer, []).outcome == Waiting
  }

  /** The beginning of a frame. */
  predicate Partial(codec: Codec, buffer: seq<byte>) {
    |buffer| < HEADER_SIZE || ScanFront(codec, buffer).Incomplete?
  }

  /** More bytes do not change what a complete frame was. */
  lemma ScanExtends(codec: Codec, a: seq<byte>, b: seq<byte>)
    requires |a| >= HEADER_SIZE
    ensures !ScanFront(codec, a).Incomplete? ==> ScanFront(codec, a + b) == ScanFront(codec, a)
  {
    assert (a + b)[5..9] == a[5..9] && (a + b)[..2] == a[..2] && (a + b)[2..9] == a[2..9];
    if !ScanFront(codec, a).Incomplete? {
      var size := PayloadSize(a);
      assert size <= MAX_MESSAGE_SIZE && 9 + size <= |a| ==> (a + b)[9..9 + size] == a[9..9 + size];
    }
  }

  lemma DrainStep(codec: Codec, buffer: seq<byte>, delivered: seq<Frame>, f: Frame, tail: seq<byte>)
    requires |buffer| >= HEADER_SIZE && ScanFront(codec, buffer) == Complete(f) && !codec.throws(delivered, f)
    requires tail == buffer[FrameSize(f)..]
    ensures Drain(codec, buffer, delivered) == Drain(codec, tail, delivered + [f])
  {
  }

  /** Scanning in two goes: what is left of the first go joins the second. */
  lemma {:induction false} DrainInTwo(codec: Codec, a: seq<byte>, b: seq<byte>, delivered: seq<Frame>)
    requires Drain(codec, a + b, delivered).outcome == Waiting
    ensures var first := Drain(codec, a, delivered);
            && first.outcome == Waiting && Partial(codec, first.rest)
            && Drain(codec, a + b, delivered) == Drain(codec, first.rest + b, first.delivered)
    decreases |a|
  {
    if |a| >= HEADER_SIZE {
      ScanExtends(codec, a, b);
      match ScanFront(codec, a)
      case Complete(f) =>
        var n := FrameSize(f);
        assert (a + b)[n..] == a[n..] + b;
        DrainStep(codec, a + b, delivered, f, a[n..] + b);
        DrainInTwo(codec, a[n..], b, delivered + [f]);
      case _ =>
    }
  }

  function Concat<T>(chunks: seq<seq<T>>): seq<T> {
    if chunks == [] then [] else Concat(chunks[..|chunks| - 1]) + chunks[|chunks| - 1]
  }

  /** The scanner inverts the encoder, whatever follows on the stream. */
  lemma FrameRoundTrip(codec: Codec, f: Frame, tail: seq<byte>)
    requires codec.Valid() && |f.payload| <= MAX_MESSAGE_SIZE
    ensures ScanFront(codec, FrameBytes(codec, f) + tail) == Complete(f)
    ensures (FrameBytes(codec, f) + tail)[FrameSize(f)..] == tail
  {
    var buffer := FrameBytes(codec, f) + tail;
    U16RoundTrip(codec.checksum(Head(f)));
    U32RoundTrip(|f.payload|);
    FlagsRoundTrip(f.flags);
    assert buffer[..2] == PutU16(codec.checksum(Head(f)));
    assert buffer[2..9] == Head(f);
    assert buffer[5..9] == PutU32(|f.payload|);
    assert buffer[9..9 + |f.payload|] == f.payload;
  }

  ghost predicate Sendable(f: Frame) {
    |f.payload| <= MAX_MESSAGE_SIZE
  }

  function StreamOf(codec: Codec, frames: seq<Frame>): seq<byte>
    requires codec.Valid() && forall i :: 0 <= i < |frames| ==> Sendable(frames[i])
  {
    if frames == [] then [] else assert Sendable(frames[0]); FrameBytes(codec, frames[0]) + StreamOf(codec, frames[1..])
  }

  lemma Regroup<T>(a: seq<T>, b: seq<T>, c: seq<T>)
    ensures (a + b) + c == a + (b + c)
  {
  }

  lemma DrainFrame(codec: Codec, f: Frame, middle: seq<byte>, partial: seq<byte>, delivered: seq<Frame>)
    requires codec.Valid() && Sendable(f) && !codec.throws(delivered, f)
    ensures Drain(codec, (FrameBytes(codec, f) + middle) + partial, delivered) ==
            Drain(codec, middle + partial, delivered + [f])
  {
    FrameRoundTrip(codec, f, middle + partial);
    Regroup(FrameBytes(codec, f), middle, partial);
    DrainStep(codec, FrameBytes(codec, f) + (middle + partial), delivered, f, middle + partial);
  }

  /** A handler that throws makes the scan fail behind the header of its frame, which does not
      count as handed on. */
  lemma ThrowFails(codec: Codec, f: Frame, tail: seq<byte>, delivered: seq<Frame>)
    requires codec.Valid() && Sendable(f) && codec.throws(delivered, f)
    ensures Drain(codec, FrameBytes(codec, f) + tail, delivered) == Drained(Failed, delivered, f.payload + tail)
  {
    FrameRoundTrip(codec, f, tail);
    assert (FrameBytes(codec, f) + tail)[9..] == f.payload + tail;
  }

  lemma DrainPartial(codec: Codec, partial: seq<byte>, delivered: seq<Frame>)
    requires Partial(codec, partial)
    ensures Drain(codec, partial, delivered) == Drained(Waiting, delivered, partial)
  {
  }

  /** No handler throws on these frames, one after the other. */
  ghost predicate Handled(codec: Codec, delivered: seq<Frame>, frames: seq<Frame>) {
    forall i :: 0 <= i < |frames| ==> !codec.throws(delivered + frames[..i], frames[i])
  }

  lemma HandledTail(codec: Codec, delivered: seq<Frame>, frames: seq<Frame>)
    requires frames != [] && Handled(codec, delivered, frames)
    ensures !codec.throws(delivered, frames[0]) && Handled(codec, delivered + [frames[0]], frames[1..])
  {
    var tail := frames[1..];
    assert delivered + frames[..0] == delivered;
    forall i | 0 <= i < |tail|
      ensures !codec.throws(delivered + [frames[0]] + tail[..i], tail[i])
    {
      assert delivered + [frames[0]] + tail[..i] == delivered + frames[..i + 1];
    }
  }

  lemma DrainFirst(codec: Codec, frames: seq<Frame>, partial: seq<byte>, delivered: seq<Frame>)
    requires codec.Valid() && frames != [] && forall i :: 0 <= i < |frames| ==> Sendable(frames[i])
    requires !codec.throws(delivered, frames[0])
    ensures Drain(codec, StreamOf(codec, frames) + partial, delivered) ==
            Drain(codec, StreamOf(codec, frames[1..]) + partial, delivered + [frames[0]])
  {
    assert Sendable(frames[0]);
    DrainFrame(codec, frames[0], StreamOf(codec, frames[1..]), partial, delivered);
  }

  lemma DrainNothing(codec: Codec, frames: seq<Frame>, partial: seq<byte>, delivered: seq<Frame>)
    requires codec.Valid() && frames == [] && Partial(codec, partial)
    ensures Drain(codec, StreamOf(codec, frames) + partial, delivered) ==
            Drained(Waiting, delivered + frames, partial)
  {
    assert StreamOf(codec, frames) + partial == partial && delivered + frames == delivered;
    DrainPartial(codec, partial, delivered);
  }

  lemma TakeFirst<T>(before: seq<T>, s: seq<T>)
    requires s != []
    ensures before + [s[0]] + s[1..] == before + s
  {
  }

  lemma {:induction false} StreamScans(codec: Codec, frames: seq<Frame>, partial: seq<byte>, delivered: seq<Frame>)
    requires codec.Valid() && forall i :: 0 <= i < |frames| ==> Sendable(frames[i])
    requires Partial(codec, partial) && Handled(codec, delivered, frames)
    ensures Drain(codec, StreamOf(codec, frames) + partial, delivered) ==
            Drained(Waiting, delivered + frames, partial)
    decreases |frames|
  {
    if frames == [] {
      DrainNothing(codec, frames, partial, delivered);
    } else {
      var f, tail := frames[0], frames[1..];
      TakeFirst(delivered, frames);
      HandledTail(codec, delivered, frames);
      StreamScans(codec, tail, partial, delivered + [f]);
      DrainFirst(codec, frames, partial, delivered);
    }
  }

  function Sum(s: seq<nat>): nat {
    if s == [] then 0 else s[0] + Sum(s[1..])
  }

  lemma {:induction false} SumAppend(s: seq<nat>, n: nat)
    ensures Sum(s + [n]) == Sum(s) + n
  {
    if s != [] {
      assert (s + [n])[1..] == s[1..] + [n];
      SumAppend(s[1..], n);
    } else {
      assert s + [n] == [n];
    }
  }

  lemma DropDrop<T>(s: seq<T>, m: nat, n: nat)
    requires m + n <= |s|
    ensures s[m..][n..] == s[m + n..]
  {
  }

  // ---------- the buffer and the sizes of the datagrams in it ----------

  ghost predicate Positive(sizes: seq<nat>) {
    forall i :: 0 <= i < |sizes| ==> sizes[i] > 0
  }

  /** Pops the sizes that `pos` consumed bytes cover; the second result is what is left of `pos`. */
  function Forget(sizes: seq<nat>, pos: nat): (seq<nat>, nat) {
    if sizes != [] && sizes[0] <= pos then Forget(sizes[1..], pos - sizes[0]) else (sizes, pos)
  }

  lemma {:induction false} ForgetSum(sizes: seq<nat>, pos: nat)
    ensures var (rest, left) := Forget(sizes, pos);
            && pos - left == Sum(sizes) - Sum(rest) >= 0
            && (Positive(sizes) ==> Positive(rest))
            && (rest != [] ==> left < rest[0])
            && (rest == [] <==> Sum(sizes) <= pos)
    ensures Positive(sizes) && sizes != [] ==> (Forget(sizes, pos).1 == pos <==> pos < sizes[0])
    decreases |sizes|
  {
    if sizes != [] && sizes[0] <= pos {
      ForgetSum(sizes[1..], pos - sizes[0]);
    }
  }

  /** The front size without the bytes of it that were consumed. */
  function Shorten(sizes: seq<nat>, left: nat): seq<nat> {
    if left > 0 && sizes != [] && left <= sizes[0] then sizes[0 := sizes[0] - left] else sizes
  }

  lemma ShortenSum(sizes: seq<nat>, left: nat)
    requires Positive(sizes) && (sizes != [] ==> left < sizes[0])
    ensures Positive(Shorten(sizes, left))
    ensures Sum(Shorten(sizes, left)) == if sizes == [] then 0 else Sum(sizes) - left
  {
    assert sizes != [] ==> Shorten(sizes, left)[1..] == sizes[1..];
  }

  /** A receiver between two datagrams. */
  datatype Stream = Stream(buffer: seq<byte>, sizes: seq<nat>, delivered: seq<Frame>)

  lemma {:induction false} DrainRest(codec: Codec, buffer: seq<byte>, delivered: seq<Frame>)
    ensures |Drain(codec, buffer, delivered).rest| <= |buffer|
    ensures Drain(codec, buffer, delivered).outcome == Waiting ==>
              Partial(codec, Drain(codec, buffer, delivered).rest)
    decreases |buffer|
  {
    if |buffer| >= HEADER_SIZE && ScanFront(codec, buffer).Complete?
       && !codec.throws(delivered, ScanFront(codec, buffer).frame) {
      var f := ScanFront(codec, buffer).frame;
      DrainRest(codec, buffer[FrameSize(f)..], delivered + [f]);
    }
  }

  /** After a scan failed at `pos`: the sizes it covers go, then as many bytes as the next
      size says, from the front of the buffer.  None if there is no next size. */
  function DropFailed(st: Stream, pos: nat): Option<Stream> {
    var (sizes, _) := Forget(st.sizes, pos);
    if sizes == [] then None
    else Some(Stream(if sizes[0] <= |st.buffer| then st.buffer[sizes[0]..] else [], sizes[1..], st.delivered))
  }

  /** `process_bytes` once the datagram is in the buffer: scans, and after each failure
      drops and scans again.  None where the front of an empty queue is read. */
  function Settle(codec: Codec, st: Stream): Option<Stream>
    decreases |st.sizes|
  {
    var d := Drain(codec, st.buffer, st.delivered);
    DrainRest(codec, st.buffer, st.delivered);
    var pos := |st.buffer| - |d.rest|;
    var (sizes, left) := Forget(st.sizes, pos);
    ForgetLength(st.sizes, pos);
    if d.outcome == Failed && st.sizes != [] then
      var next := DropFailed(st.(delivered := d.delivered), pos);
      if next.None? then None else Settle(codec, next.value)
    else Some(Stream(d.rest, Shorten(sizes, left), d.delivered))
  }

  lemma {:induction false} ForgetLength(sizes: seq<nat>, pos: nat)
    ensures |Forget(sizes, pos).0| <= |sizes|
    decreases |sizes|
  {
    if sizes != [] && sizes[0] <= pos {
      ForgetLength(sizes[1..], pos - sizes[0]);
    }
  }

  /** The sizes speak of no more bytes than there are. */
  ghost predicate Covered(st: Stream) {
    Positive(st.sizes) && Sum(st.sizes) <= |st.buffer|
  }

  /** Sizes and buffer agree, and the buffer is the beginning of a frame. */
  ghost predicate Aligned(codec: Codec, st: Stream) {
    Positive(st.sizes) && Sum(st.sizes) == |st.buffer| && Partial(codec, st.buffer)
  }

  /** The drop is defined exactly if a size is left, and keeps sizes and buffer in step
      exactly if they were and no datagram was wholly consumed before the failure. */
  lemma DropFailedSum(st: Stream, pos: nat)
    requires Covered(st)
    ensures DropFailed(st, pos).Some? <==> pos < Sum(st.sizes)
    ensures DropFailed(st, pos).Some? ==>
              var st' := DropFailed(st, pos).value;
              && Covered(st')
              && (Sum(st'.sizes) == |st'.buffer| <==> Sum(st.sizes) == |st.buffer| && pos < st.sizes[0])
  {
    ForgetSum(st.sizes, pos);
  }

  /** Whatever arrives, sizes never speak of more bytes than there are. */
  lemma {:induction false} SettleCovered(codec: Codec, st: Stream)
    requires Covered(st)
    ensures Settle(codec, st).Some? ==> Covered(Settle(codec, st).value)
    decreases |st.sizes|
  {
    var d := Drain(codec, st.buffer, st.delivered);
    DrainRest(codec, st.buffer, st.delivered);
    var pos := |st.buffer| - |d.rest|;
    ForgetLength(st.sizes, pos);
    SettleStep(codec, st, d, pos);
    if d.outcome == Failed && st.sizes != [] {
      DropFailedSum(st.(delivered := d.delivered), pos);
      var next := DropFailed(st.(delivered := d.delivered), pos);
      if next.Some? {
        SettleCovered(codec, next.value);
      }
    } else {
      ForgetCovered(st, d.rest, d.delivered, pos);
    }
  }

  lemma ForgetCovered(st: Stream, rest: seq<byte>, delivered: seq<Frame>, pos: nat)
    requires Covered(st) && pos + |rest| == |st.buffer|
    ensures var (sizes, left) := Forget(st.sizes, pos); Covered(Stream(rest, Shorten(sizes, left), delivered))
  {
    ForgetSum(st.sizes, pos);
    ShortenSum(Forget(st.sizes, pos).0, Forget(st.sizes, pos).1);
  }

  /** Without a failure the frames are handed on and sizes and buffer agree again. */
  lemma SettleAligned(codec: Codec, st: Stream)
    requires Positive(st.sizes) && Sum(st.sizes) == |st.buffer|
    requires Drain(codec, st.buffer, st.delivered).outcome != Failed
    ensures var d := Drain(codec, st.buffer, st.delivered);
            && Settle(codec, st).Some? && Aligned(codec, Settle(codec, st).value)
            && Settle(codec, st).value.buffer == d.rest && Settle(codec, st).value.delivered == d.delivered
  {
    var d := Drain(codec, st.buffer, st.delivered);
    DrainRest(codec, st.buffer, st.delivered);
    DroppedRest(codec, st.buffer, st.delivered);
    var pos := |st.buffer| - |d.rest|;
    ForgetSum(st.sizes, pos);
    ShortenSum(Forget(st.sizes, pos).0, Forget(st.sizes, pos).1);
  }

  lemma {:induction false} DroppedRest(codec: Codec, buffer: seq<byte>, delivered: seq<Frame>)
    ensures Drain(codec, buffer, delivered).outcome == Dropped ==> Drain(codec, buffer, delivered).rest == []
    decreases |buffer|
  {
    if |buffer| >= HEADER_SIZE && ScanFront(codec, buffer).Complete?
       && !codec.throws(delivered, ScanFront(codec, buffer).frame) {
      var f := ScanFront(codec, buffer).frame;
      DroppedRest(codec, buffer[FrameSize(f)..], delivered + [f]);
    }
  }

  /** A datagram that meets an empty buffer, whatever it holds: its frames up to a failure
      are handed on, and after a failure the rest of it is dropped.  This is not defined if
      and only if the failure leaves nothing: a handler threw on a last frame without
      payload. */
  lemma SettleAlone(codec: Codec, data: seq<byte>, delivered: seq<Frame>)
    requires data != []
    ensures var d, r := Drain(codec, data, delivered), Settle(codec, Stream(data, [|data|], delivered));
            && (r.None? <==> d.outcome == Failed && d.rest == [])
            && (r.Some? ==>
                  && Aligned(codec, r.value) && r.value.delivered == d.delivered
                  && r.value.buffer == if d.outcome == Failed then [] else d.rest)
  {
    var d, st := Drain(codec, data, delivered), Stream(data, [|data|], delivered);
    assert Sum(st.sizes) == |data| + Sum([]);
    if d.outcome == Failed {
      DrainRest(codec, data, delivered);
      var pos := |data| - |d.rest|;
      assert data[|data|..] == [] && st.sizes[1..] == [];
      if d.rest != [] {
        assert Forget(st.sizes, pos) == (st.sizes, pos);
        assert DropFailed(st.(delivered := d.delivered), pos) == Some(Stream([], [], d.delivered));
      } else {
        assert Forget(st.sizes, pos) == ([], 0);
      }
    } else {
      SettleAligned(codec, st);
    }
  }

  /** What a datagram makes of the receiver's state. */
  function Take(codec: Codec, st: Stream, data: seq<byte>): Option<Stream> {
    if data == [] then Some(st) else Settle(codec, Stream(st.buffer + data, st.sizes + [|data|], st.delivered))
  }

  lemma TakeCovered(codec: Codec, st: Stream, data: seq<byte>)
    requires Covered(st)
    ensures data != [] ==> Covered(Stream(st.buffer + data, st.sizes + [|data|], st.delivered))
    ensures Take(codec, st, data).Some? ==> Covered(Take(codec, st, data).value)
  {
    if data != [] {
      SumAppend(st.sizes, |data|);
      SettleCovered(codec, Stream(st.buffer + data, st.sizes + [|data|], st.delivered));
    }
  }

  /** As long as no scan fails, sizes and buffer stay in step and the frames come out. */
  lemma TakeAligned(codec: Codec, st: Stream, data: seq<byte>)
    requires Aligned(codec, st) && Drain(codec, st.buffer + data, st.delivered).outcome != Failed
    ensures var d, r := Drain(codec, st.buffer + data, st.delivered), Take(codec, st, data);
            r.Some? && Aligned(codec, r.value) && r.value.buffer == d.rest && r.value.delivered == d.delivered
  {
    if data == [] {
      assert st.buffer + data == st.buffer;
      DrainPartial(codec, st.buffer, st.delivered);
    } else {
      SumAppend(st.sizes, |data|);
      SettleAligned(codec, Stream(st.buffer + data, st.sizes + [|data|], st.delivered));
    }
  }

  /** A datagram that meets an empty buffer leaves them in step, whatever it holds. */
  lemma TakeAlone(codec: Codec, st: Stream, data: seq<byte>)
    requires Covered(st) && st.buffer == []
    ensures var d, r := Drain(codec, data, st.delivered), Take(codec, st, data);
            (r.None? <==> d.outcome == Failed && d.rest == []) && (r.Some? ==> Aligned(codec, r.value))
  {
    SumZero(st.sizes);
    if data != [] {
      assert [] + data == data && [] + [|data|] == [|data|];
      SettleAlone(codec, data, st.delivered);
    }
  }

  /** The receiver after a sequence of datagrams. */
  function TakeAll(codec: Codec, chunks: seq<seq<byte>>): Option<Stream> {
    if chunks == [] then Some(Stream([], [], []))
    else
      var before := TakeAll(codec, chunks[..|chunks| - 1]);
      if before.None? then None else Take(codec, before.value, chunks[|chunks| - 1])
  }

  /** Chunking independence: for a well-formed stream only the concatenation of the datagrams
      decides which frames are handed on and which bytes are kept, and the sizes always add
      up to the bytes kept. */
  lemma {:induction false} ChunkingIndependence(codec: Codec, chunks: seq<seq<byte>>)
    requires WellFormedStream(codec, Concat(chunks))
    ensures var d, r := Drain(codec, Concat(chunks), []), TakeAll(codec, chunks);
            r.Some? && Aligned(codec, r.value) && r.value.delivered == d.delivered && r.value.buffer == d.rest
  {
    if chunks != [] {
      var init, last := chunks[..|chunks| - 1], chunks[|chunks| - 1];
      DrainInTwo(codec, Concat(init), last, []);
      ChunkingIndependence(codec, init);
      TakeAligned(codec, TakeAll(codec, init).value, last);
    }
  }

  /** Sent frames, cut into any datagrams, come out as the same frames in the same
      order, and the unfinished frame at the end stays in the buffer. */
  lemma StreamDelivery(codec: Codec, frames: seq<Frame>, partial: seq<byte>, chunks: seq<seq<byte>>)
    requires codec.Valid() && forall i :: 0 <= i < |frames| ==> Sendable(frames[i])
    requires Partial(codec, partial) && Handled(codec, [], frames)
    requires Concat(chunks) == StreamOf(codec, frames) + partial
    ensures var r := TakeAll(codec, chunks);
            r.Some? && Aligned(codec, r.value) && r.value.delivered == frames && r.value.buffer == partial
  {
    StreamScans(codec, frames, partial, []);
    ChunkingIndependence(codec, chunks);
  }

  /** One turn of the loop of `process_bytes`. */
  lemma SettleStep(codec: Codec, st: Stream, d: Drained, pos: nat)
    requires d == Drain(codec, st.buffer, st.delivered) && pos + |d.rest| == |st.buffer|
    ensures d.outcome == Failed && st.sizes != [] ==>
              var next := DropFailed(st.(delivered := d.delivered), pos);
              Settle(codec, st) == if next.None? then None else Settle(codec, next.value)
    ensures !(d.outcome == Failed && st.sizes != []) ==>
              var (sizes, left) := Forget(st.sizes, pos);
              Settle(codec, st) == Some(Stream(d.rest, Shorten(sizes, left), d.delivered))
  {
  }

  lemma SumZero(sizes: seq<nat>)
    requires Positive(sizes) && Sum(sizes) == 0
    ensures sizes == []
  {
  }

  /** The bytes of a header whose checksum is wrong, for an empty message. */
  function BadHeader(codec: Codec): (h: seq<byte>)
    requires codec.Valid()
    ensures |h| == HEADER_SIZE
  {
    var head := [0, 0, 0, 0, 0, 0, 0];
    PutU16((codec.checksum(head) + 1) % 0x1_0000) + head
  }

  lemma BadHeaderFails(codec: Codec, tail: seq<byte>, delivered: seq<Frame>)
    requires codec.Valid()
    ensures Drain(codec, BadHeader(codec) + tail, delivered) == Drained(Failed, delivered, BadHeader(codec) + tail)
  {
    var h, head := BadHeader(codec), [0, 0, 0, 0, 0, 0, 0];
    U16RoundTrip((codec.checksum(head) + 1) % 0x1_0000);
    assert h[..2] == PutU16((codec.checksum(head) + 1) % 0x1_0000) && h[2..9] == head;
    assert h[5..9] == [0, 0, 0, 0];
    ScanExtends(codec, h, tail);
  }

  /** A frame in front of a bad header is handed on, and then the scan fails. */
  lemma FrameThenBad(codec: Codec, f: Frame, tail: seq<byte>, delivered: seq<Frame>)
    requires codec.Valid() && Sendable(f) && !codec.throws(delivered, f)
    ensures Drain(codec, FrameBytes(codec, f) + (BadHeader(codec) + tail), delivered) ==
            Drained(Failed, delivered + [f], BadHeader(codec) + tail)
  {
    var rest := BadHeader(codec) + tail;
    FrameRoundTrip(codec, f, rest);
    DrainStep(codec, FrameBytes(codec, f) + rest, delivered, f, rest);
    BadHeaderFails(codec, tail, delivered + [f]);
  }

  /** The header of a frame with a payload is the beginning of a frame. */
  lemma HeaderIsPartial(codec: Codec, f: Frame)
    requires codec.Valid() && Sendable(f) && f.payload != []
    ensures Partial(codec, FrameBytes(codec, f)[..HEADER_SIZE])
  {
    var frame := FrameBytes(codec, f);
    var h := frame[..HEADER_SIZE];
    FrameRoundTrip(codec, f, []);
    assert frame + [] == frame && h + frame[HEADER_SIZE..] == frame;
    ScanExtends(codec, h, frame[HEADER_SIZE..]);
  }

  /** A buffer with the beginning of a frame stays as it is. */
  lemma SettlePartial(codec: Codec, st: Stream)
    requires Partial(codec, st.buffer) && Positive(st.sizes)
    ensures Settle(codec, st) == Some(st)
  {
    DrainPartial(codec, st.buffer, st.delivered);
  }

  lemma ForgetTwo(a: nat, b: nat, pos: nat)
    requires a <= pos < a + b
    ensures Forget([a] + [b], pos) == ([b], pos - a)
  {
    var sizes: seq<nat> := [a] + [b];
    assert sizes[1..] == [b];
  }

  /** The second datagram: the end of a frame, a bad header and the header of another frame.
      As many bytes as it has are dropped from the front of the buffer, so that the last
      header stays, and no size speaks of it. */
  lemma DriftStep(codec: Codec, f: Frame, h: seq<byte>)
    requires codec.Valid() && Sendable(f) && !codec.throws([], f) && |h| == HEADER_SIZE && Partial(codec, h)
    ensures var two := FrameBytes(codec, f)[HEADER_SIZE..] + BadHeader(codec) + h;
            Take(codec, Stream(FrameBytes(codec, f)[..HEADER_SIZE], [HEADER_SIZE], []), two) == Some(Stream(h, [], [f]))
  {
    var frame, bad := FrameBytes(codec, f), BadHeader(codec);
    var two := frame[HEADER_SIZE..] + bad + h;
    SplitBytes(frame, HEADER_SIZE, bad, h);
    FrameThenBad(codec, f, h, []);
    DriftSettles(codec, f, frame, bad, h, |two|);
  }

  lemma SplitBytes<T>(frame: seq<T>, n: nat, bad: seq<T>, h: seq<T>)
    requires n <= |frame|
    ensures frame[..n] + (frame[n..] + bad + h) == frame + (bad + h)
  {
  }

  lemma DriftSettles(codec: Codec, f: Frame, frame: seq<byte>, bad: seq<byte>, h: seq<byte>, n: nat)
    requires |frame| >= HEADER_SIZE == |h| && n == |frame| + |bad| && Partial(codec, h)
    requires Drain(codec, frame + (bad + h), []) == Drained(Failed, [] + [f], bad + h) && bad != []
    ensures Settle(codec, Stream(frame + (bad + h), [HEADER_SIZE] + [n], [])) == Some(Stream(h, [], [f]))
  {
    var st, next := Stream(frame + (bad + h), [HEADER_SIZE] + [n], []), Stream(h, [], [f]);
    ForgetTwo(HEADER_SIZE, n, |frame|);
    assert st.buffer[n..] == h && [n][1..] == [];
    assert DropFailed(st.(delivered := [f]), |frame|) == Some(next);
    SettleStep(codec, st, Drained(Failed, [f], bad + h), |frame|);
    SettlePartial(codec, next);
  }

  /** The third datagram: the end of the second frame and a bad header.  The frame that it
      completes is at least as long as the datagram, so no size is left to drop by. */
  lemma EmptyQueueStep(codec: Codec, g: Frame, delivered: seq<Frame>)
    requires codec.Valid() && Sendable(g) && !codec.throws(delivered, g)
    ensures var three := FrameBytes(codec, g)[HEADER_SIZE..] + BadHeader(codec);
            Take(codec, Stream(FrameBytes(codec, g)[..HEADER_SIZE], [], delivered), three) == None
  {
    var frame, bad := FrameBytes(codec, g), BadHeader(codec);
    var three := frame[HEADER_SIZE..] + bad;
    var st := Stream(frame + (bad + []), [] + [|three|], delivered);
    assert bad + [] == bad && frame[..HEADER_SIZE] + three == frame + (bad + []);
    FrameThenBad(codec, g, [], delivered);
    assert st.sizes[1..] == [] && Forget(st.sizes, |frame|) == ([], 0);
    SettleStep(codec, st, Drained(Failed, delivered + [g], bad + []), |frame|);
  }

  /** Sizes and buffer drift apart: two frames, each split behind its header and followed by
      a bad header, in three datagrams.  After the second one, nine bytes are in the buffer
      that no size speaks of; after the third one, the front of an empty queue is read. */
  lemma SizesDrift(codec: Codec, f: Frame, g: Frame) returns (one: seq<byte>, two: seq<byte>, three: seq<byte>)
    requires codec.Valid() && Sendable(f) && Sendable(g) && f.payload != [] && g.payload != []
    requires !codec.throws([], f) && !codec.throws([f], g)
    ensures one + two + three ==
            FrameBytes(codec, f) + BadHeader(codec) + FrameBytes(codec, g) + BadHeader(codec)
    ensures TakeAll(codec, [one]) == Some(Stream(one, [|one|], []))
    ensures TakeAll(codec, [one, two]) == Some(Stream(FrameBytes(codec, g)[..HEADER_SIZE], [], [f]))
    ensures TakeAll(codec, [one, two, three]) == None
  {
    var frame, frame', bad := FrameBytes(codec, f), FrameBytes(codec, g), BadHeader(codec);
    one, two, three := frame[..HEADER_SIZE], frame[HEADER_SIZE..] + bad + frame'[..HEADER_SIZE], frame'[HEADER_SIZE..] + bad;
    JoinBytes(frame, frame', HEADER_SIZE, bad);
    HeaderIsPartial(codec, f);
    HeaderIsPartial(codec, g);
    TakePartial(codec, one);
    DriftStep(codec, f, frame'[..HEADER_SIZE]);
    EmptyQueueStep(codec, g, [f]);
    TakeAllThree(codec, one, two, three);
  }

  lemma JoinBytes<T>(a: seq<T>, b: seq<T>, n: nat, bad: seq<T>)
    requires n <= |a| && n <= |b|
    ensures a[..n] + (a[n..] + bad + b[..n]) + (b[n..] + bad) == a + bad + b + bad
  {
  }

  lemma TakePartial(codec: Codec, data: seq<byte>)
    requires data != [] && Partial(codec, data)
    ensures Take(codec, Stream([], [], []), data) == Some(Stream(data, [|data|], []))
  {
    assert [] + data == data && [] + [|data|] == [|data|];
    SettlePartial(codec, Stream(data, [|data|], []));
  }

  lemma TakeAllThree(codec: Codec, one: seq<byte>, two: seq<byte>, three: seq<byte>)
    ensures TakeAll(codec, [one]) == Take(codec, Stream([], [], []), one)
    ensures var st := TakeAll(codec, [one]);
            TakeAll(codec, [one, two]) == if st.None? then None else Take(codec, st.value, two)
    ensures var st := TakeAll(codec, [one, two]);
            TakeAll(codec, [one, two, three]) == if st.None? then None else Take(codec, st.value, three)
  {
    assert [one][..0] == [] && [one, two][..1] == [one] && [one, two, three][..2] == [one, two];
  }

  /** The receiving end of a connection: bytes not yet consumed, the sizes of the
      datagrams they came in, and the messages passed on so far. */
  class StreamReader {
    const codec: Codec
    var device: seq<byte>
    var pos: nat
    var packetEndPosition: seq<nat>
    var delivered: seq<Frame>

    function View(): Stream
      reads this
    {
      Stream(device, packetEndPosition, delivered)
    }

    ghost predicate Valid()
      reads this
    {
      Covered(View()) && pos == 0
    }

    constructor (codec: Codec)
      ensures Valid() && this.codec == codec && View() == Stream([], [], [])
    {
      this.codec := codec;
      device, pos, packetEndPosition, delivered := [], 0, [], [];
    }

    /** Hands on complete frames until the bytes run out. */
    method ProcessStream() returns (ok: bool)
      requires pos == 0
      modifies this`pos, this`delivered
      ensures pos <= |device|
      ensures var d := Drain(codec, device, old(delivered));
              ok == (d.outcome != Failed) && delivered == d.delivered && device[pos..] == d.rest
    {
      ghost var target := Drain(codec, device, delivered);
      var rest := device;
      while |rest| >= HEADER_SIZE
        invariant pos <= |device| && rest == device[pos..]
        invariant target == Drain(codec, rest, delivered)
        decreases |rest|
      {
        match ScanFront(codec, rest)
        case TooBig =>
          pos := |device|;
          return true;
        case Corrupt =>
          return false;
        case Incomplete =>
          return true;
        case Complete(f) =>
          if codec.throws(delivered, f) {
            DropDrop(device, pos, HEADER_SIZE);
            pos := pos + HEADER_SIZE;
            return false;
          }
          var size := FrameSize(f);
          DrainStep(codec, rest, delivered, f, rest[size..]);
          DropDrop(device, pos, size);
          delivered, pos, rest := delivered + [f], pos + size, rest[size..];
      }
      return true;
    }

    /** Pops the datagram sizes that the consumed bytes cover. */
    method PopConsumed() returns (left: nat)
      modifies this`packetEndPosition
      ensures (packetEndPosition, left) == Forget(old(packetEndPosition), pos)
    {
      left := pos;
      while packetEndPosition != [] && packetEndPosition[0] <= left
        invariant Forget(packetEndPosition, left) == Forget(old(packetEndPosition), pos)
        decreases |packetEndPosition|
      {
        left := left - packetEndPosition[0];
        packetEndPosition := packetEndPosition[1..];
      }
    }

    /** Drops the consumed bytes and the datagram sizes that they cover. */
    method ForgetConsumed()
      requires Covered(View()) && pos <= |device|
      modifies this
      ensures Valid() && device == old(device[pos..]) && delivered == old(delivered)
      ensures var (sizes, left) := Forget(old(packetEndPosition), old(pos)); packetEndPosition == Shorten(sizes, left)
      ensures old(Sum(packetEndPosition) == |device|) ==> Sum(packetEndPosition) == |device|
    {
      ForgetSum(packetEndPosition, pos);
      var left := PopConsumed();
      ShortenSum(packetEndPosition, left);
      if left > 0 && packetEndPosition != [] {
        packetEndPosition := packetEndPosition[0 := packetEndPosition[0] - left];
      }
      device := device[pos..];
      pos := 0;
    }

    /** After a scan failed at `pos`: forgets the datagrams that were consumed, then drops
        as many bytes as the next one has, from the front of the buffer.  Not defined if no
        size is left.  Sizes and buffer stay in step exactly if no datagram was wholly
        consumed before the failure. */
    method DropFailedPacket() returns (defined: bool)
      requires Covered(View()) && pos <= |device|
      modifies this
      ensures defined <==> old(pos < Sum(packetEndPosition))
      ensures (if defined then Some(View()) else None) == DropFailed(old(View()), old(pos))
      ensures defined ==> Valid()
      ensures defined ==>
                (Sum(packetEndPosition) == |device| <==>
                 old(Sum(packetEndPosition) == |device| && pos < packetEndPosition[0]))
    {
      DropFailedSum(View(), pos);
      ForgetSum(packetEndPosition, pos);
      var left := PopConsumed();
      if packetEndPosition == [] {
        return false;
      }
      pos := 0;
      device := device[packetEndPosition[0]..];
      packetEndPosition := packetEndPosition[1..];
      return true;
    }

    /** Scans the buffer, and after each failure drops and scans again. */
    method ScanAndDrop() returns (defined: bool)
      requires Valid()
      modifies this
      ensures (if defined then Some(View()) else None) == Settle(codec, old(View()))
      ensures defined ==> Valid()
    {
      ghost var st, d := View(), Drain(codec, device, delivered);
      var ok := ProcessStream();
      while !ok && packetEndPosition != []
        invariant View() == st.(delivered := d.delivered) && Covered(st)
        invariant d == Drain(codec, st.buffer, st.delivered) && ok == (d.outcome != Failed)
        invariant pos <= |device| && device[pos..] == d.rest
        invariant Settle(codec, st) == Settle(codec, old(View()))
        decreases |packetEndPosition|
      {
        SettleStep(codec, st, d, pos);
        ForgetLength(packetEndPosition, pos);
        defined := DropFailedPacket();
        if !defined {
          return;
        }
        st, d := View(), Drain(codec, device, delivered);
        ok := ProcessStream();
      }
      SettleStep(codec, st, d, pos);
      ForgetConsumed();
      return true;
    }

    /** Takes in one datagram; not defined where the front of an empty queue is read.  If
        sizes and buffer were in step they are so afterwards, unless a scan fails; and
        whatever a datagram holds, they are if it met an empty buffer and something of it is
        left at a failure. */
    method ProcessBytes(data: seq<byte>) returns (defined: bool)
      requires Valid()
      modifies this
      ensures (if defined then Some(View()) else None) == Take(codec, old(View()), data)
      ensures defined ==> Valid()
      ensures old(Aligned(codec, View())) && Drain(codec, old(device) + data, old(delivered)).outcome != Failed ==>
                var d := Drain(codec, old(device) + data, old(delivered));
                defined && Aligned(codec, View()) && device == d.rest && delivered == d.delivered
      ensures old(device) == [] ==>
                var d := Drain(codec, data, old(delivered));
                (defined <==> !(d.outcome == Failed && d.rest == [])) && (defined ==> Aligned(codec, View()))
    {
      TakeCovered(codec, View(), data);
      if Aligned(codec, View()) && Drain(codec, device + data, delivered).outcome != Failed {
        TakeAligned(codec, View(), data);
      }
      if device == [] {
        TakeAlone(codec, View(), data);
      }
      if data == [] {
        return true;
      }
      packetEndPosition := packetEndPosition + [|data|];
      device := device + data;
      defined := ScanAndDrop();
    }
  }
}

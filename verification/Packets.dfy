/** Outgoing messages and the packets cut from them.

A message is a device with a read position.  A message longer than its fragment
size goes out as FRAGMENT packets: with the position at the end of the device the
packet only announces the message, otherwise it carries the slice at the position.
 */
module Packets {
  import opened Bytes
  import opened Options
  import opened FragmentedMessage
  import opened Framing

  const MIN_FRAGMENT_SIZE := 32
  const MIN_COMPRESS_SIZE := 512

  datatype Message = Message(
    id: Option<byte>, answerId: Option<byte>, cmd: byte,
    repeated: bool, fragmentQuery: bool,
    device: seq<byte>, pos: nat,
    fragmentSize: nat, minCompressSize: uint32)
  {
    ghost predicate Valid() {
      && pos <= |device| < 0x1_0000_0000
      && MIN_FRAGMENT_SIZE <= fragmentSize <= MAX_PACKET_DATA_SIZE
    }

    predicate Fragmented() {
      |device| > fragmentSize
    }

    /** Where the packet cut from the message now starts in the device ... */
    function SliceStart(): nat {
      if Fragmented() then pos else 0
    }

    /** ... and where it ends. */
    function SliceEnd(): nat {
      if SliceStart() + fragmentSize > |device| then |device| else SliceStart() + fragmentSize
    }

    function Slice(): seq<byte>
      requires pos <= |device|
    {
      device[SliceStart()..SliceEnd()]
    }
  }

  /** `add_raw_data_to_packet`: at most `maxSize` bytes from `pos` on. */
  function RawData(device: seq<byte>, pos: nat, maxSize: nat): seq<byte>
    requires pos <= |device|
  {
    device[pos..pos + Min(maxSize, |device| - pos)]
  }

  /** The data of a packet behind the answer id. */
  function Content(m: Message): seq<byte>
    requires m.Valid()
  {
    if m.Fragmented() then
      PutU32(|m.device|) + PutU32(m.pos) +
      if m.pos == |m.device| then PutU32(m.fragmentSize) else RawData(m.device, m.pos, m.fragmentSize)
    else
      RawData(m.device, 0, m.fragmentSize)
  }

  function Body(m: Message): seq<byte>
    requires m.Valid()
  {
    if m.answerId.Some? then [m.answerId.value] + Content(m) else Content(m)
  }

  /** The frame a message is sent as under the id `id`. */
  function PacketFrame(codec: Codec, m: Message, id: byte): Frame
    requires m.Valid()
  {
    var body := Body(m);
    var compressed := |body| > m.minCompressSize;
    Frame(id, m.cmd,
          Flags(m.repeated, m.fragmentQuery, m.Fragmented(), m.answerId.Some?, compressed),
          if compressed then codec.compress(body) else body)
  }

  /** The message after it was sent: it has its id, and its device was read. */
  function Sent(m: Message, id: byte): Message
    requires m.pos <= |m.device|
  {
    m.(id := Some(id), pos := m.SliceEnd())
  }

  /** What the receiver reads in front of the data of a fragment or an answer. */
  datatype Announcement = Announcement(fullSize: uint32, pos: uint32, window: uint32)
  datatype Fields = Fields(answerId: Option<byte>, fragment: Option<Announcement>, data: seq<byte>)

  /** The data of a frame as the handlers see it; None if the frame is rejected or
      does not decompress. */
  function Unpack(codec: Codec, f: Frame): Option<seq<byte>> {
    if f.payload == [] && (f.flags.compressed || f.flags.fragment) then None
    else if f.flags.compressed then
      var data := codec.uncompress(f.payload);
      if data == [] then None else Some(data)
    else Some(f.payload)
  }

  /** The leading fields of the data; None where the stream reader throws. */
  function ParseFields(flags: Flags, data: seq<byte>): Option<Fields> {
    if flags.answer && data == [] then None
    else
      var answerId := if flags.answer then Some(data[0]) else None;
      var rest := if flags.answer then data[1..] else data;
      ParseContent(flags.fragment, rest, answerId)
  }

  /** The fields a packet cut from `m` should be read as. */
  function ExpectedFields(m: Message): Fields
    requires m.Valid()
  {
    Fields(
      m.answerId,
      if !m.Fragmented() then None
      else Some(Announcement(|m.device|, m.pos, if m.pos == |m.device| then m.fragmentSize else 0)),
      m.Slice())
  }

  lemma BodyShape(m: Message)
    requires m.Valid()
    ensures |Body(m)| <= MAX_PACKET_DATA_SIZE + 9
    ensures m.Fragmented() || m.answerId.Some? ==> Body(m) != []
  {
  }

  /** The receiver's reading of the fields behind the answer id. */
  function ParseContent(fragment: bool, rest: seq<byte>, answerId: Option<byte>): Option<Fields> {
    if !fragment then Some(Fields(answerId, None, rest))
    else if |rest| < 8 then None
    else
      var fullSize, pos := GetU32(rest[..4]), GetU32(rest[4..8]);
      if fullSize != pos then Some(Fields(answerId, Some(Announcement(fullSize, pos, 0)), rest[8..]))
      else if |rest| < 12 then None
      else Some(Fields(answerId, Some(Announcement(fullSize, pos, GetU32(rest[8..12]))), rest[12..]))
  }

  lemma TwoFields(a: uint32, b: uint32, tail: seq<byte>)
    ensures var c := PutU32(a) + PutU32(b) + tail;
            && |c| == 8 + |tail| && c[8..] == tail
            && GetU32(c[..4]) == a && GetU32(c[4..8]) == b
            && (|tail| == 4 ==> c[8..12] == tail && c[12..] == [])
  {
    var c := PutU32(a) + PutU32(b) + tail;
    U32RoundTrip(a);
    U32RoundTrip(b);
    assert c[..4] == PutU32(a) && c[4..8] == PutU32(b);
  }

  lemma ContentRoundTrip(m: Message)
    requires m.Valid()
    ensures ParseContent(m.Fragmented(), Content(m), m.answerId) == Some(ExpectedFields(m))
  {
    if m.Fragmented() {
      if m.pos == |m.device| {
        TwoFields(|m.device|, m.pos, PutU32(m.fragmentSize));
        U32RoundTrip(m.fragmentSize);
      } else {
        TwoFields(|m.device|, m.pos, RawData(m.device, m.pos, m.fragmentSize));
      }
    }
  }

  lemma ParseBody(m: Message, flags: Flags)
    requires m.Valid() && flags.fragment == m.Fragmented() && flags.answer == m.answerId.Some?
    ensures ParseFields(flags, Body(m)) == Some(ExpectedFields(m))
  {
    ContentRoundTrip(m);
    if flags.answer {
      assert Body(m)[1..] == Content(m);
    }
  }

  lemma UnpackPacket(codec: Codec, m: Message, id: byte)
    requires codec.Valid() && m.Valid()
    ensures Unpack(codec, PacketFrame(codec, m, id)) == Some(Body(m))
    ensures Sendable(PacketFrame(codec, m, id))
    ensures var f := PacketFrame(codec, m, id); f.flags.compressed || f.flags.fragment ==> f.payload != []
  {
    BodyShape(m);
    var f := PacketFrame(codec, m, id);
    if f.flags.compressed {
      assert codec.uncompress(codec.compress(Body(m))) == Body(m);
      assert 0 < |codec.compress(Body(m))| <= |Body(m)| + |Body(m)| / 100 + 17;
    }
  }

  /** How many bytes a packet has before compression: the answer id, size and position of a
      fragment, and the slice, or the fragment size in an announcement. */
  lemma BodySize(m: Message)
    requires m.Valid()
    ensures |Body(m)| == (if m.answerId.Some? then 1 else 0) +
                         if !m.Fragmented() then |m.device|
                         else 8 + if m.pos == |m.device| then 4 else Min(m.fragmentSize, |m.device| - m.pos)
  {
  }

  /** A packet is COMPRESSED if and only if it has more bytes than the message's limit; only
      then the compressor changes it. */
  lemma CompressedWhen(codec: Codec, m: Message, id: byte)
    requires m.Valid()
    ensures var f := PacketFrame(codec, m, id);
            && (f.flags.compressed <==> |Body(m)| > m.minCompressSize)
            && f.payload == if |Body(m)| > m.minCompressSize then codec.compress(Body(m)) else Body(m)
  {
  }

  /** The order on the wire: answer id, full size, position. */
  lemma BodyLayout(m: Message)
    requires m.Valid()
    ensures m.answerId.Some? ==> |Body(m)| > 0 && Body(m)[0] == m.answerId.value
    ensures var k := if m.answerId.Some? then 1 else 0;
            m.Fragmented() ==>
              && |Body(m)| >= k + 8
              && GetU32(Body(m)[k..k + 4]) == |m.device| && GetU32(Body(m)[k + 4..k + 8]) == m.pos
  {
    var k, body := if m.answerId.Some? then 1 else 0, Body(m);
    if m.Fragmented() {
      U32RoundTrip(|m.device|);
      U32RoundTrip(m.pos);
      assert body[k..k + 4] == PutU32(|m.device|) && body[k + 4..k + 8] == PutU32(m.pos);
    }
  }

  /** A frame that claims to be compressed or a fragment and is empty is rejected, and so is
      one that does not decompress; any other one is read. */
  lemma UnpackExact(codec: Codec, f: Frame)
    ensures Unpack(codec, f).None? <==>
            || (f.payload == [] && (f.flags.compressed || f.flags.fragment))
            || (f.flags.compressed && codec.uncompress(f.payload) == [])
    ensures Unpack(codec, f).Some? ==>
              Unpack(codec, f).value == if f.flags.compressed then codec.uncompress(f.payload) else f.payload
  {
  }

  function PacketBytes(codec: Codec, m: Message, id: byte): seq<byte>
    requires codec.Valid() && m.Valid()
  {
    UnpackPacket(codec, m, id);
    FrameBytes(codec, PacketFrame(codec, m, id))
  }

  /** Packet round trip: from any stream position, the receiver reads back the id, the
      command, the flags, the answer id, the full size, the position and the slice. */
  lemma PacketRoundTrip(codec: Codec, m: Message, id: byte, tail: seq<byte>)
    requires codec.Valid() && m.Valid()
    ensures var f := PacketFrame(codec, m, id);
            && Sendable(f)
            && ScanFront(codec, PacketBytes(codec, m, id) + tail) == Complete(f)
            && f.id == id && f.cmd == m.cmd
            && f.flags.repeated == m.repeated && f.flags.fragmentQuery == m.fragmentQuery
            && f.flags.answer == m.answerId.Some? && f.flags.fragment == m.Fragmented()
            && (f.flags.compressed || f.flags.fragment ==> f.payload != [])
            && Unpack(codec, f).Some?
            && ParseFields(f.flags, Unpack(codec, f).value) == Some(ExpectedFields(m))
  {
    var f := PacketFrame(codec, m, id);
    UnpackPacket(codec, m, id);
    FrameRoundTrip(codec, f, tail);
    ParseBody(m, f.flags);
  }

  /** The fragment size a request for `size` bytes leads to. */
  function ClampFragmentSize(size: nat): (r: nat)
    ensures 32 <= r <= 65490
    ensures size <= 65490 ==> size <= r
    ensures 32 <= size ==> r <= size
  {
    if size < MIN_FRAGMENT_SIZE then MIN_FRAGMENT_SIZE
    else if size > MAX_PACKET_DATA_SIZE then MAX_PACKET_DATA_SIZE
    else size
  }

  class MessageItem {
    var id: Option<byte>
    var answerId: Option<byte>
    const cmd: byte
    var repeated: bool
    var fragmentQuery: bool
    const device: seq<byte>
    var pos: nat
    var fragmentSize: nat
    var minCompressSize: uint32

    function View(): Message
      reads this
    {
      Message(id, answerId, cmd, repeated, fragmentQuery, device, pos, fragmentSize, minCompressSize)
    }

    /** A new message with its default sizes.  Its sender leaves the device at the end, so
        that a long message is announced first. */
    constructor (cmd: byte, answerId: Option<byte>, device: seq<byte>)
      requires |device| < 0x1_0000_0000
      ensures View().Valid() && View() == Message(None, answerId, cmd, false, false, device, |device|,
                                                  32745, 512)
    {
      this.id, this.answerId, this.cmd, this.device := None, answerId, cmd, device;
      repeated, fragmentQuery, pos := false, false, |device|;
      fragmentSize, minCompressSize := MAX_MESSAGE_DATA_SIZE, MIN_COMPRESS_SIZE;
    }

    method SetFragmentSize(size: nat)
      requires pos <= |device| < 0x1_0000_0000
      modifies this`fragmentSize
      ensures View().Valid()
      ensures fragmentSize == ClampFragmentSize(size)
    {
      fragmentSize := size;
      if fragmentSize < MIN_FRAGMENT_SIZE {
        fragmentSize := MIN_FRAGMENT_SIZE;
      } else if fragmentSize > MAX_PACKET_DATA_SIZE {
        fragmentSize := MAX_PACKET_DATA_SIZE;
      }
    }

    /** Reads at most `maxSize` bytes at `from`, appending them to `data`. */
    method AddRawData(data: seq<byte>, from: nat, maxSize: nat) returns (r: seq<byte>)
      requires from <= |device|
      modifies this`pos
      ensures r == data + RawData(device, from, maxSize)
      ensures pos == from + |RawData(device, from, maxSize)|
    {
      var rawSize := Min(maxSize, |device| - from);
      pos := from + rawSize;
      r := data + device[from..pos];
    }

    /** The data of the next packet; reading it moves the device's position. */
    method BuildData() returns (data: seq<byte>, fragment: bool)
      requires View().Valid()
      modifies this`pos
      ensures data == Body(old(View())) && fragment == old(View()).Fragmented()
      ensures View() == old(View()).(pos := old(View()).SliceEnd())
    {
      data, fragment := [], false;
      if answerId.Some? || |device| > fragmentSize {
        if answerId.Some? {
          data := [answerId.value];
        }
        if |device| > fragmentSize {
          fragment := true;
          var fields := PutU32(|device|) + PutU32(pos);
          if pos == |device| {
            data := data + (fields + PutU32(fragmentSize));
          } else {
            var content := AddRawData(fields, pos, fragmentSize);
            data := data + content;
          }
        } else {
          data := AddRawData(data, 0, fragmentSize);
        }
      } else {
        data := AddRawData(data, 0, fragmentSize);
      }
    }

    /** Takes an id from the 8-bit counter on first use. */
    method AssignId(nextTxMsgId: byte) returns (nextTxMsgId': byte)
      modifies this`id
      ensures id == Some(if old(id).Some? then old(id).value else nextTxMsgId)
      ensures nextTxMsgId' as int == if old(id).Some? then nextTxMsgId as int else (nextTxMsgId as int + 1) % 0x100
    {
      nextTxMsgId' := nextTxMsgId;
      if id.None? {
        id := Some(nextTxMsgId);
        nextTxMsgId' := if nextTxMsgId == 0xFF then 0 else nextTxMsgId + 1;
      }
    }

    /** Builds the next packet. */
    method PreparePacket(codec: Codec, nextTxMsgId: byte) returns (packet: seq<byte>, nextTxMsgId': byte)
      requires codec.Valid() && View().Valid()
      modifies this`id, this`pos
      ensures id == Some(if old(id).Some? then old(id).value else nextTxMsgId)
      ensures packet == PacketBytes(codec, old(View()), id.value)
      ensures View() == Sent(old(View()), id.value) && View().Valid()
      ensures nextTxMsgId' as int == if old(id).Some? then nextTxMsgId as int else (nextTxMsgId as int + 1) % 0x100
    {
      ghost var m := View();
      nextTxMsgId' := AssignId(nextTxMsgId);
      assert Body(View()) == Body(m);
      var data, fragment := BuildData();
      var compressed := |data| > minCompressSize;
      if compressed {
        data := codec.compress(data);
      }
      var frame := Frame(id.value, cmd, Flags(repeated, fragmentQuery, fragment, answerId.Some?, compressed), data);
      packet := EncodeFrame(codec, frame, m);
    }
  }

  /** Header, checksum and data of a frame cut from `m`. */
  method EncodeFrame(codec: Codec, frame: Frame, ghost m: Message) returns (packet: seq<byte>)
    requires codec.Valid() && m.Valid() && frame == PacketFrame(codec, m, frame.id)
    ensures packet == PacketBytes(codec, m, frame.id)
  {
    UnpackPacket(codec, m, frame.id);
    packet := FrameBytes(codec, frame);
  }
}

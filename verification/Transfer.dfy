/** A whole transfer: one message, its sender, a link that loses, repeats and reorders
packets, and its receiver.

Every packet ever sent stays on the link; receiving picks any of them any number of
times.  Requests to the sender and timeouts on either side come at any moment.  The
receiver's id filter stands before its handlers; it may drop a packet, and it may drop the
entry of the message, which can also be lost otherwise.
 */
module Transfer {
  import opened Bytes
  import opened Options
  import opened Framing
  import opened Packets
  import opened Reassembly
  import IdFilter

  const PING: byte := 1
  const REMOVE_FRAGMENT: byte := 2

  datatype Sys = Sys(
    sender: Message, id: byte,
    link: set<seq<byte>>,
    filter: IdFilter.State, entry: Option<Entry>, delivered: seq<seq<byte>>)

  datatype Action =
    | Transmit                        // the sender prepares a packet
    | Request(pos: nat, size: nat)    // a fragment query reaches the sender
    | Resend                          // the sender's wait list times out
    | Receive(packet: seq<byte>, awaited: bool, now: int) // a packet from the link reaches the receiver
    | Other(repeated: bool, other: byte, now: int)        // a packet of another message reaches it
    | Forget                          // the receiver drops its entry
    | Timeout(now: int)               // the receiver waited too long for a fragment

  /** The sender's answer to a fragment query: seek, and resize the fragments. */
  function Seek(m: Message, pos: nat, size: nat): Message {
    if pos < |m.device| then m.(pos := pos, fragmentSize := ClampFragmentSize(size)) else m
  }

  function Halve(m: Message): Message {
    m.(fragmentSize := ClampFragmentSize(m.fragmentSize / 2), repeated := true)
  }

  /** The frame in a packet and its data; None if the receiver rejects it. */
  function Open(codec: Codec, packet: seq<byte>): Option<(Frame, seq<byte>)> {
    if |packet| < HEADER_SIZE || !ScanFront(codec, packet).Complete? then None
    else
      var f := ScanFront(codec, packet).frame;
      var data := Unpack(codec, f);
      if data.None? then None else Some((f, data.value))
  }

  /** What the data of a frame do to the entry of message `id`.  An answer that is no
      fragment is dropped unless it is `awaited`: a message with an answer handler waits
      for it.  A reassembled answer that nobody awaits has a handler of its own. */
  function HandleData(f: Frame, data: seq<byte>, id: byte, entry: Option<Entry>, awaited: bool): Reaction {
    if f.cmd == REMOVE_FRAGMENT then
      Reaction(if data != [] && data[0] == id then None else entry, None)
    else if f.flags.fragmentQuery then Reaction(entry, None)
    else
      var fields := ParseFields(f.flags, data);
      if fields.None? then Reaction(entry, None)
      else if fields.value.fragment.Some? then
        OnFragment(entry, fields.value.fragment.value, fields.value.data)
      else if f.flags.answer then Reaction(entry, if awaited then Some(fields.value.data) else None)
      else if f.cmd == PING then Reaction(entry, None)
      else Reaction(entry, Some(fields.value.data))
  }

  /** What a received packet does to the entry of message `id`. */
  function Handle(codec: Codec, id: byte, entry: Option<Entry>, packet: seq<byte>, awaited: bool): Reaction {
    var arrived := Open(codec, packet);
    if arrived.None? then Reaction(entry, None)
    else HandleData(arrived.value.0, arrived.value.1, id, entry, awaited)
  }

  /** The data are a fragment that the receiver takes into its entry. */
  predicate IsFragment(f: Frame, data: seq<byte>) {
    && f.cmd != REMOVE_FRAGMENT && !f.flags.fragmentQuery
    && ParseFields(f.flags, data).Some? && ParseFields(f.flags, data).value.fragment.Some?
  }

  /** The filter's verdict on a packet, and the entry of the message after it: a stale id
      takes its entry along. */
  function Filter(s: Sys, repeated: bool, id: byte, now: int): (IdFilter.Verdict, Option<Entry>) {
    var st := s.filter.(fragments := if s.entry.Some? then {s.id as int} else {});
    var v := IdFilter.Admit(st, repeated, id as int, now);
    (v, if s.id as int in v.state.fragments then s.entry else None)
  }

  /** The system after the filter let a packet pass and its handler reacted; while bytes are
      missing the id is in the filter's list with the time of the last fragment. */
  function Reacted(s: Sys, st: IdFilter.State, r: Reaction, fragment: bool, now: int): Sys {
    s.(filter := if fragment && r.entry.Some? then st.(lost := st.lost[s.id as int := now]) else st,
       entry := r.entry,
       delivered := if r.delivered.Some? then s.delivered + [r.delivered.value] else s.delivered)
  }

  /** A packet reaches the receiver: scanner, filter, handler. */
  function Arrive(codec: Codec, s: Sys, packet: seq<byte>, awaited: bool, now: int): Sys {
    if |packet| < HEADER_SIZE || !ScanFront(codec, packet).Complete? then s
    else
      var f := ScanFront(codec, packet).frame;
      var (v, entry) := Filter(s, f.flags.repeated, f.id, now);
      if !v.passed then s.(filter := v.state, entry := entry)
      else
        var arrived := Open(codec, packet);
        Reacted(s, v.state, Handle(codec, s.id, entry, packet, awaited),
                arrived.Some? && IsFragment(arrived.value.0, arrived.value.1), now)
  }

  function Next(codec: Codec, s: Sys, a: Action): (s': Sys)
    requires codec.Valid() && s.sender.Valid()
    ensures s'.sender.Valid()
  {
    match a
    case Transmit =>
      s.(link := s.link + {PacketBytes(codec, s.sender, s.id)}, sender := Sent(s.sender, s.id))
    case Request(pos, size) => s.(sender := Seek(s.sender, pos, size))
    case Resend => s.(sender := Halve(s.sender))
    case Receive(packet, awaited, now) => if packet in s.link then Arrive(codec, s, packet, awaited, now) else s
    case Other(repeated, other, now) =>
      if other == s.id then s
      else
        var (v, entry) := Filter(s, repeated, other, now);
        s.(filter := v.state, entry := entry)
    case Forget => s.(entry := None)
    case Timeout(now) =>
      if s.entry.None? then s
      else
        var lost, id := s.filter.lost, s.id as int;
        s.(filter := s.filter.(lost := if id in lost then lost else lost[id := now]),
           entry := Some(s.entry.value.(window := Shrink(s.entry.value.window))))
  }

  /** `packet` was cut from a message with this content, whatever its position then was. */
  ghost predicate CutFrom(codec: Codec, src: seq<byte>, id: byte, packet: seq<byte>)
    requires codec.Valid()
  {
    exists m: Message :: m.Valid() && m.device == src && packet == PacketBytes(codec, m, id)
  }

  /** An entry that is being filled; only messages above the least fragment size get one. */
  ghost predicate Filling(src: seq<byte>, e: Entry) {
    Honest(src, e) && e.parts != [] && |src| > MIN_FRAGMENT_SIZE
  }

  ghost predicate Inv(codec: Codec, src: seq<byte>, s: Sys)
    requires codec.Valid()
  {
    && s.sender.Valid() && s.sender.device == src
    && (forall packet :: packet in s.link ==> CutFrom(codec, src, s.id, packet))
    && (s.entry.Some? ==> Filling(src, s.entry.value))
    && (forall i :: 0 <= i < |s.delivered| ==> s.delivered[i] == src)
  }

  /** How the receiver should treat the packet cut from `m`. */
  function ReactTo(m: Message, id: byte, entry: Option<Entry>, awaited: bool): Reaction
    requires m.Valid()
  {
    if m.cmd == REMOVE_FRAGMENT then
      Reaction(if Body(m) != [] && Body(m)[0] == id then None else entry, None)
    else if m.fragmentQuery then Reaction(entry, None)
    else if m.Fragmented() then OnFragment(entry, ExpectedFields(m).fragment.value, m.Slice())
    else if m.answerId.Some? then Reaction(entry, if awaited then Some(m.device) else None)
    else if m.cmd == PING then Reaction(entry, None)
    else Reaction(entry, Some(m.device))
  }

  lemma OpenPacket(codec: Codec, m: Message, id: byte)
    requires codec.Valid() && m.Valid()
    ensures Open(codec, PacketBytes(codec, m, id)) == Some((PacketFrame(codec, m, id), Body(m)))
  {
    var packet := PacketBytes(codec, m, id);
    assert packet + [] == packet;
    PacketRoundTrip(codec, m, id, []);
    UnpackPacket(codec, m, id);
  }

  lemma HandleFields(f: Frame, data: seq<byte>, x: Fields, id: byte, entry: Option<Entry>, awaited: bool)
    requires f.cmd != REMOVE_FRAGMENT && !f.flags.fragmentQuery && ParseFields(f.flags, data) == Some(x)
    ensures HandleData(f, data, id, entry, awaited) ==
            if x.fragment.Some? then OnFragment(entry, x.fragment.value, x.data)
            else if f.flags.answer then Reaction(entry, if awaited then Some(x.data) else None)
            else if f.cmd == PING then Reaction(entry, None)
            else Reaction(entry, Some(x.data))
  {
  }

  lemma HandleBody(codec: Codec, m: Message, sentAs: byte, id: byte, entry: Option<Entry>, awaited: bool)
    requires codec.Valid() && m.Valid()
    ensures HandleData(PacketFrame(codec, m, sentAs), Body(m), id, entry, awaited) == ReactTo(m, id, entry, awaited)
  {
    var f := PacketFrame(codec, m, sentAs);
    if m.cmd != REMOVE_FRAGMENT && !m.fragmentQuery {
      ParseBody(m, f.flags);
      HandleFields(f, Body(m), ExpectedFields(m), id, entry, awaited);
      assert !m.Fragmented() ==> m.Slice() == m.device;
    }
  }

  /** The receiver treats the bytes of a packet as the message they were cut from. */
  lemma HandlePacket(codec: Codec, m: Message, sentAs: byte, id: byte, entry: Option<Entry>, awaited: bool)
    requires codec.Valid() && m.Valid()
    ensures Handle(codec, id, entry, PacketBytes(codec, m, sentAs), awaited) == ReactTo(m, id, entry, awaited)
  {
    OpenPacket(codec, m, sentAs);
    HandleBody(codec, m, sentAs, id, entry, awaited);
  }

  /** Packets for the protocol itself are not handed on: REMOVE_FRAGMENT closes the entry
      of the id it names and no other, a query and a PING leave the entry alone. */
  lemma ControlPackets(codec: Codec, m: Message, sentAs: byte, id: byte, entry: Option<Entry>, awaited: bool)
    requires codec.Valid() && m.Valid() && m.answerId.None? && !m.Fragmented()
    requires m.cmd == 2 || m.fragmentQuery || m.cmd == 1
    ensures var r := Handle(codec, id, entry, PacketBytes(codec, m, sentAs), awaited);
            && r.delivered == None
            && r.entry == if m.cmd == 2 && m.device != [] && m.device[0] == id then None else entry
  {
    HandlePacket(codec, m, sentAs, id, entry, awaited);
  }

  /** A fragment of a message that is too big costs the entry, and nothing is handed on. */
  lemma TooBigMessage(codec: Codec, m: Message, sentAs: byte, id: byte, entry: Option<Entry>, awaited: bool)
    requires codec.Valid() && m.Valid() && m.cmd != 2 && !m.fragmentQuery && |m.device| >= 0x8000_0000
    ensures Handle(codec, id, entry, PacketBytes(codec, m, sentAs), awaited) == Reaction(None, None)
  {
    HandlePacket(codec, m, sentAs, id, entry, awaited);
  }

  /** A packet cut from the source leads to an honest entry or to the source itself. */
  lemma ReactHonest(m: Message, id: byte, entry: Option<Entry>, awaited: bool)
    requires m.Valid()
    requires entry.Some? ==> Filling(m.device, entry.value)
    ensures var r := ReactTo(m, id, entry, awaited);
            && (r.entry.Some? ==> Filling(m.device, r.entry.value))
            && (r.delivered.Some? ==> r.delivered.value == m.device)
  {
    if m.Fragmented() {
      OnFragmentHonest(m.device, entry, ExpectedFields(m).fragment.value, m.Slice());
    }
  }

  /** What a packet of the message does when it reaches the receiver. */
  lemma ArriveOwn(codec: Codec, s: Sys, m: Message, awaited: bool, now: int)
    requires codec.Valid() && m.Valid()
    ensures var (v, entry) := Filter(s, m.repeated, s.id, now);
            Arrive(codec, s, PacketBytes(codec, m, s.id), awaited, now) ==
            if !v.passed then s.(filter := v.state, entry := entry)
            else Reacted(s, v.state, ReactTo(m, s.id, entry, awaited),
                         m.cmd != REMOVE_FRAGMENT && !m.fragmentQuery && m.Fragmented(), now)
  {
    var packet := PacketBytes(codec, m, s.id);
    var (v, entry) := Filter(s, m.repeated, s.id, now);
    ScanPacket(codec, m, s.id);
    OpenPacket(codec, m, s.id);
    HandlePacket(codec, m, s.id, s.id, entry, awaited);
    FragmentPacket(codec, m, s.id);
  }

  lemma ScanPacket(codec: Codec, m: Message, id: byte)
    requires codec.Valid() && m.Valid()
    ensures |PacketBytes(codec, m, id)| >= HEADER_SIZE
    ensures ScanFront(codec, PacketBytes(codec, m, id)) == Complete(PacketFrame(codec, m, id))
  {
    assert PacketBytes(codec, m, id) + [] == PacketBytes(codec, m, id);
    PacketRoundTrip(codec, m, id, []);
  }

  lemma FragmentPacket(codec: Codec, m: Message, id: byte)
    requires codec.Valid() && m.Valid()
    ensures IsFragment(PacketFrame(codec, m, id), Body(m)) <==>
            m.cmd != REMOVE_FRAGMENT && !m.fragmentQuery && m.Fragmented()
  {
    ParseBody(m, PacketFrame(codec, m, id).flags);
  }

  lemma ArriveHonest(codec: Codec, s: Sys, packet: seq<byte>, awaited: bool, now: int)
    requires codec.Valid() && CutFrom(codec, s.sender.device, s.id, packet)
    requires s.entry.Some? ==> Filling(s.sender.device, s.entry.value)
    ensures var s', src := Arrive(codec, s, packet, awaited, now), s.sender.device;
            && s'.sender == s.sender && s'.id == s.id && s'.link == s.link
            && (s'.entry.Some? ==> Filling(src, s'.entry.value))
            && (s'.delivered == s.delivered || s'.delivered == s.delivered + [src])
  {
    var m: Message :| m.Valid() && m.device == s.sender.device && packet == PacketBytes(codec, m, s.id);
    ArriveOwn(codec, s, m, awaited, now);
    ReactHonest(m, s.id, Filter(s, m.repeated, s.id, now).1, awaited);
  }

  lemma NextKeepsInv(codec: Codec, src: seq<byte>, s: Sys, a: Action)
    requires codec.Valid() && Inv(codec, src, s)
    ensures Inv(codec, src, Next(codec, s, a))
  {
    match a
    case Transmit => TransmitKeepsInv(codec, src, s);
    case Receive(packet, awaited, now) =>
      if packet in s.link {
        ArriveKeepsInv(codec, src, s, packet, awaited, now);
      }
    case _ =>
  }

  lemma TransmitKeepsInv(codec: Codec, src: seq<byte>, s: Sys)
    requires codec.Valid() && Inv(codec, src, s)
    ensures Inv(codec, src, Next(codec, s, Transmit))
  {
    assert CutFrom(codec, src, s.id, PacketBytes(codec, s.sender, s.id));
  }

  lemma ArriveKeepsInv(codec: Codec, src: seq<byte>, s: Sys, packet: seq<byte>, awaited: bool, now: int)
    requires codec.Valid() && Inv(codec, src, s) && packet in s.link
    ensures Inv(codec, src, Arrive(codec, s, packet, awaited, now))
  {
    ArriveHonest(codec, s, packet, awaited, now);
  }

  /** Before the first packet; the receiver's filter has seen other messages. */
  function Start(m: Message, id: byte, filter: IdFilter.State): Sys {
    Sys(m, id, {}, filter, None, [])
  }

  function Run(codec: Codec, s: Sys, actions: seq<Action>): (s': Sys)
    requires codec.Valid() && s.sender.Valid()
    ensures s'.sender.Valid()
    decreases |actions|
  {
    if actions == [] then s
    else
      Next(codec, Run(codec, s, actions[..|actions| - 1]), actions[|actions| - 1])
  }

  lemma {:induction false} RunKeepsInv(codec: Codec, src: seq<byte>, s: Sys, actions: seq<Action>)
    requires codec.Valid() && Inv(codec, src, s)
    ensures Inv(codec, src, Run(codec, s, actions))
    decreases |actions|
  {
    if actions != [] {
      var init := actions[..|actions| - 1];
      RunKeepsInv(codec, src, s, init);
      NextKeepsInv(codec, src, Run(codec, s, init), actions[|actions| - 1]);
    }
  }

  /** End to end: in every run, whatever is handed to the application is the message
      that was sent, byte for byte. */
  lemma EndToEnd(codec: Codec, m: Message, id: byte, filter: IdFilter.State, actions: seq<Action>)
    requires codec.Valid() && m.Valid()
    ensures var s := Run(codec, Start(m, id, filter), actions);
            forall i :: 0 <= i < |s.delivered| ==> s.delivered[i] == m.device
  {
    RunKeepsInv(codec, m.device, Start(m, id, filter), actions);
  }
}

/** What the sender's timeout does to the packets of a message: they are REPEATED from then
on, carry half as much, and meet the receiver's filter as copies. */
module Resending {
  import opened Bytes
  import opened Options
  import opened Framing
  import opened Packets
  import opened Transfer
  import opened Progress
  import IdFilter

  /** A timeout sets the flag and halves the fragment size, but not below 32 bytes; the
      message and its position stay. */
  lemma ResendHalves(codec: Codec, s: Sys)
    requires codec.Valid() && s.sender.Valid()
    ensures var s' := Next(codec, s, Resend);
            && s'.sender == s.sender.(repeated := true,
                                      fragmentSize := if s.sender.fragmentSize < 64 then 32 else s.sender.fragmentSize / 2)
            && s' == s.(sender := s'.sender)
  {
  }

  /** The flag is set exactly if there was a timeout; the fragment size stays as it is until
      the next timeout or query. */
  lemma {:induction false} SenderInRun(codec: Codec, s: Sys, actions: seq<Action>)
    requires codec.Valid() && s.sender.Valid()
    ensures var s' := Run(codec, s, actions);
            && s'.id == s.id && s'.sender.device == s.sender.device
            && (s'.sender.repeated <==> s.sender.repeated || Resend in actions)
            && ((forall a :: a in actions ==> !a.Resend? && !a.Request?) ==>
                  s'.sender.fragmentSize == s.sender.fragmentSize)
    decreases |actions|
  {
    if actions != [] {
      var n := |actions| - 1;
      var init, last := actions[..n], actions[n];
      assert actions == init + [last];
      SenderInRun(codec, s, init);
      SenderInStep(codec, Run(codec, s, init), last);
      assert last in actions && forall a :: a in init ==> a in actions;
    }
  }

  lemma SenderInStep(codec: Codec, s: Sys, a: Action)
    requires codec.Valid() && s.sender.Valid()
    ensures var s' := Next(codec, s, a);
            && s'.id == s.id && s'.sender.device == s.sender.device
            && (s'.sender.repeated <==> s.sender.repeated || a == Resend)
            && (!a.Resend? && !a.Request? ==> s'.sender.fragmentSize == s.sender.fragmentSize)
  {
  }

  /** In every run, a packet that is sent scans to a frame with the REPEATED flag if and only
      if the message had it at first or a timeout came before. */
  lemma SentPacketFlag(codec: Codec, s: Sys, actions: seq<Action>)
    requires codec.Valid() && s.sender.Valid()
    ensures var packet := PacketBytes(codec, Run(codec, s, actions).sender, s.id);
            && Run(codec, s, actions + [Transmit]).link == Run(codec, s, actions).link + {packet}
            && |packet| >= HEADER_SIZE && ScanFront(codec, packet).Complete?
            && ScanFront(codec, packet).frame.id == s.id
            && (ScanFront(codec, packet).frame.flags.repeated <==> s.sender.repeated || Resend in actions)
  {
    RunLast(codec, s, actions, Transmit);
    SenderInRun(codec, s, actions);
    ScanPacket(codec, Run(codec, s, actions).sender, s.id);
  }

  /** A packet sent after a timeout is dropped by the receiver if its id has no fresh entry in
      the filter's list: the entry of the message and what was handed on stay as they are. */
  lemma ResentIsDropped(codec: Codec, s: Sys, actions: seq<Action>, awaited: bool, now: int)
    requires codec.Valid() && s.sender.Valid() && Resend in actions
    requires !Fresh(Run(codec, s, actions).filter, s.id, now)
    ensures var s1 := Run(codec, s, actions);
            var s2 := Arrive(codec, s1, PacketBytes(codec, s1.sender, s.id), awaited, now);
            s2.entry == s1.entry && s2.delivered == s1.delivered && s2.sender == s1.sender
  {
    SenderInRun(codec, s, actions);
    var s1 := Run(codec, s, actions);
    ArriveOwn(codec, s1, s1.sender, awaited, now);
    OwnPacket(s1, s1.sender.repeated, now);
  }

  /** A query moves the message to a position inside it and asks for fragments of a size; one
      for a position at or behind the end changes nothing. */
  lemma QueryMoves(codec: Codec, s: Sys, pos: nat, size: nat)
    requires codec.Valid() && s.sender.Valid()
    ensures var s' := Next(codec, s, Request(pos, size));
            if pos < |s.sender.device| then
              && s' == s.(sender := s'.sender) && SameMessage(s.sender, s'.sender) && s'.sender.pos == pos
              && s'.sender.id == s.sender.id
              && s'.sender.fragmentSize == if size < 32 then 32 else if size > 65490 then 65490 else size
            else s' == s
  {
  }

  /** Without a query in between, two packets of a message carry one slice after the other;
      behind the last one comes an announcement again. */
  lemma NextSlice(m: Message, id: byte)
    requires m.Valid() && m.Fragmented()
    ensures var next := Sent(m, id);
            && next.Valid() && SameMessage(m, next) && next.fragmentSize == m.fragmentSize
            && next.SliceStart() == m.SliceEnd()
            && (next.Slice() == [] <==> m.SliceEnd() == |m.device|)
  {
  }

  /** A fragment that passes the filter puts its id into the list with its time if bytes are
      still missing; one that completes the message leaves the list as the filter made it. */
  lemma FragmentAndList(codec: Codec, s: Sys, m: Message, awaited: bool, now: int)
    requires codec.Valid() && m.Valid() && m.Fragmented() && m.cmd != 2 && !m.fragmentQuery
    requires !m.repeated || Fresh(s.filter, s.id, now)
    ensures var s', id := Arrive(codec, s, PacketBytes(codec, m, s.id), awaited, now), s.id as int;
            var lost := IdFilter.Admit(s.filter, m.repeated, id, now).state.lost;
            s'.filter.lost == if s'.entry.Some? then lost[id := now] else lost
  {
    ArriveOwn(codec, s, m, awaited, now);
    OwnPacket(s, m.repeated, now);
  }

  /** A packet never carries more of the message than the fragment size. */
  lemma PacketCarries(m: Message)
    requires m.Valid()
    ensures |m.Slice()| <= m.fragmentSize
    ensures m.Fragmented() && m.pos + m.fragmentSize <= |m.device| ==> |m.Slice()| == m.fragmentSize
  {
  }
}

/** Single-packet messages from sender to application: numbered messages, their packets as
bytes on the link, the id filter and the decoder of the receiver. */
module Delivery {
  import opened Bytes
  import opened Options
  import opened Framing
  import opened Packets
  import opened Transfer
  import opened Progress
  import IdFilter
  import opened IdRuns

  /** A packet that reaches the receiver; `awaited` says that, should it be an answer, a
      message with an answer handler waits for it. */
  datatype Arrival = Arrival(packet: seq<byte>, now: int, awaited: bool)

  datatype Receipt = Receipt(filter: IdFilter.State, delivered: Option<seq<byte>>)

  /** The frame goes through the filter; what passes is unpacked and handed on. */
  function Receive(codec: Codec, st: IdFilter.State, a: Arrival): Receipt {
    if |a.packet| < HEADER_SIZE || !ScanFront(codec, a.packet).Complete? then Receipt(st, None)
    else
      var f := ScanFront(codec, a.packet).frame;
      var v := IdFilter.Admit(st, f.flags.repeated, f.id as int, a.now);
      Receipt(v.state, if v.passed then Handle(codec, f.id, None, a.packet, a.awaited).delivered else None)
  }

  /** The packet of message `m` with number `n`, as first transmission or as copy. */
  function PacketOf(codec: Codec, m: Message, ev: Event): seq<byte>
    requires codec.Valid() && m.Valid()
  {
    PacketBytes(codec, m.(repeated := ev.Repeat?), (ev.number % 0x100) as byte)
  }

  /** A message that fits into one packet and is for the application. */
  predicate SinglePacket(m: Message) {
    ForApplication(m) && !m.Fragmented()
  }

  /** The receiver takes exactly the filter's decision and hands on the message itself,
      unless it is an answer that nobody awaits. */
  lemma ReceivePacket(codec: Codec, m: Message, ev: Event, st: IdFilter.State, awaited: bool)
    requires codec.Valid() && m.Valid() && SinglePacket(m)
    ensures var v := Apply(st, ev);
            Receive(codec, st, Arrival(PacketOf(codec, m, ev), ev.now, awaited)) ==
            Receipt(v.state, if v.passed && (m.answerId.None? || awaited) then Some(m.device) else None)
  {
    var m', id := m.(repeated := ev.Repeat?), (ev.number % 0x100) as byte;
    var packet := PacketOf(codec, m, ev);
    assert packet + [] == packet;
    PacketRoundTrip(codec, m', id, []);
    HandlePacket(codec, m', id, id, None, awaited);
  }

  /** A run of the receiver on packets of the messages `msgs`, numbered from `b`. */
  ghost predicate IsDelivery(codec: Codec, msgs: seq<Message>, b: nat, evs: seq<Event>, awaited: seq<bool>,
                             receipts: seq<Receipt>)
    requires codec.Valid()
  {
    && (forall k :: 0 <= k < |msgs| ==> msgs[k].Valid() && SinglePacket(msgs[k]))
    && |receipts| == |evs| + 1 && |awaited| == |evs|
    && forall i :: 0 <= i < |evs| ==>
         && b <= evs[i].number < b + |msgs|
         && receipts[i + 1] ==
            Receive(codec, receipts[i].filter,
                    Arrival(PacketOf(codec, msgs[evs[i].number - b], evs[i]), evs[i].now, awaited[i]))
  }

  lemma DeliveryStep(codec: Codec, msgs: seq<Message>, b: nat, evs: seq<Event>, awaited: seq<bool>,
                     receipts: seq<Receipt>, i: nat)
    requires codec.Valid() && IsDelivery(codec, msgs, b, evs, awaited, receipts) && i < |evs|
    ensures b <= evs[i].number < b + |msgs|
    ensures var v, m := Apply(receipts[i].filter, evs[i]), msgs[evs[i].number - b];
            receipts[i + 1] ==
            Receipt(v.state, if v.passed && (m.answerId.None? || awaited[i]) then Some(m.device) else None)
  {
    ReceivePacket(codec, msgs[evs[i].number - b], evs[i], receipts[i].filter, awaited[i]);
  }

  /** Each receipt holds the filter's next state, and only what passes is handed on. */
  ghost predicate Filters(evs: seq<Event>, receipts: seq<Receipt>) {
    && |receipts| == |evs| + 1
    && forall i :: 0 <= i < |evs| ==>
         && Apply(receipts[i].filter, evs[i]).state == receipts[i + 1].filter
         && (receipts[i + 1].delivered.Some? ==> Apply(receipts[i].filter, evs[i]).passed)
  }

  lemma DeliveryFilters(codec: Codec, msgs: seq<Message>, b: nat, evs: seq<Event>, awaited: seq<bool>,
                        receipts: seq<Receipt>)
    requires codec.Valid() && IsDelivery(codec, msgs, b, evs, awaited, receipts)
    ensures Filters(evs, receipts)
  {
    forall i | 0 <= i < |evs|
      ensures Apply(receipts[i].filter, evs[i]).state == receipts[i + 1].filter
      ensures receipts[i + 1].delivered.Some? ==> Apply(receipts[i].filter, evs[i]).passed
    {
      DeliveryStep(codec, msgs, b, evs, awaited, receipts, i);
    }
  }

  /** The run of the filter inside a run of the receiver. */
  lemma FilterRun(evs: seq<Event>, receipts: seq<Receipt>)
    returns (states: seq<IdFilter.State>, passed: seq<bool>)
    requires Filters(evs, receipts)
    ensures IsRun(evs, states, passed) && states[0] == receipts[0].filter
    ensures forall i :: 0 <= i < |evs| ==> passed[i] == Apply(receipts[i].filter, evs[i]).passed
    ensures forall i :: 0 <= i < |evs| && receipts[i + 1].delivered.Some? ==> passed[i]
  {
    states := seq(|receipts|, i requires 0 <= i < |receipts| => receipts[i].filter);
    passed := seq(|evs|, i requires 0 <= i < |evs| => Apply(receipts[i].filter, evs[i]).passed);
    forall i | 0 <= i < |evs|
      ensures Apply(states[i], evs[i]) == IdFilter.Verdict(states[i + 1], passed[i])
    {
      assert states[i + 1] == receipts[i + 1].filter;
    }
  }

  /** What is handed on at `i` is what was sent under that number, and a packet without the
      REPEATED flag is handed on if and only if it is no answer or is awaited. */
  lemma DeliveredContent(codec: Codec, msgs: seq<Message>, b: nat, evs: seq<Event>, awaited: seq<bool>,
                         receipts: seq<Receipt>, i: nat)
    requires codec.Valid() && IsDelivery(codec, msgs, b, evs, awaited, receipts) && i < |evs|
    ensures b <= evs[i].number < b + |msgs|
    ensures var r, m := receipts[i + 1].delivered, msgs[evs[i].number - b];
            && (r.None? || r == Some(m.device))
            && (!evs[i].Repeat? ==> (r.Some? <==> m.answerId.None? || awaited[i]))
  {
    DeliveryStep(codec, msgs, b, evs, awaited, receipts, i);
    if !evs[i].Repeat? {
      UnflaggedPasses(receipts[i].filter, evs[i]);
    }
  }

  /** Of a message that was handed on, no copy is handed on again; a packet of it that was
      overtaken is, if it is no answer or is awaited. */
  lemma DeliveredOnce(codec: Codec, msgs: seq<Message>, b: nat, evs: seq<Event>, awaited: seq<bool>,
                      receipts: seq<Receipt>, i: nat, j: nat)
    requires codec.Valid() && IsDelivery(codec, msgs, b, evs, awaited, receipts)
    requires receipts[0].filter.lost == map[] && receipts[0].filter.next == b % IdFilter.IDS
    requires Regular(evs, b) && NoAlias(evs, b)
    requires i < j < |evs| && evs[i].number == evs[j].number && receipts[i + 1].delivered.Some?
    ensures b <= evs[j].number < b + |msgs|
    ensures receipts[j + 1].delivered.Some? <==>
            evs[j].Overtaken? && (msgs[evs[j].number - b].answerId.None? || awaited[j])
  {
    DeliveryFilters(codec, msgs, b, evs, awaited, receipts);
    DeliveryStep(codec, msgs, b, evs, awaited, receipts, j);
    var states, passed := FilterRun(evs, receipts);
    AtMostOnce(evs, states, passed, b, i, j);
  }

  /** Up to 256 messages, whatever is lost and whenever copies arrive. */
  lemma DeliveredOnceInOneCycle(codec: Codec, msgs: seq<Message>, b: nat, evs: seq<Event>, awaited: seq<bool>,
                                receipts: seq<Receipt>, i: nat, j: nat)
    requires codec.Valid() && IsDelivery(codec, msgs, b, evs, awaited, receipts) && |msgs| <= IdFilter.IDS
    requires receipts[0].filter.lost == map[] && receipts[0].filter.next == b % IdFilter.IDS
    requires InOrder(evs, b) && LatesAreClose(evs, b)
    requires i < j < |evs| && evs[i].number == evs[j].number && receipts[i + 1].delivered.Some?
    ensures b <= evs[j].number < b + |msgs|
    ensures receipts[j + 1].delivered.Some? <==>
            evs[j].Overtaken? && (msgs[evs[j].number - b].answerId.None? || awaited[j])
  {
    NumbersInRange(codec, msgs, b, evs, awaited, receipts);
    OneCycleIsRegular(evs, b);
    DeliveredOnce(codec, msgs, b, evs, awaited, receipts, i, j);
  }

  lemma NumbersInRange(codec: Codec, msgs: seq<Message>, b: nat, evs: seq<Event>, awaited: seq<bool>,
                       receipts: seq<Receipt>)
    requires codec.Valid() && IsDelivery(codec, msgs, b, evs, awaited, receipts)
    ensures forall k :: 0 <= k < |evs| ==> b <= evs[k].number < b + |msgs|
  {
  }
}

/** Progress of a transfer on a link that loses nothing: each query is answered by a
packet that covers the part asked for, so the number of exchanges is bounded. */
module Progress {
  import opened Bytes
  import opened Options
  import opened Parts
  import opened FragmentedMessage
  import opened Framing
  import opened Packets
  import opened Reassembly
  import opened Transfer
  import IdFilter

  /** Number of pieces of at most `f` bytes that `n` bytes are cut into. */
  function Pieces(n: nat, f: nat): nat
    requires f > 0
  {
    if n == 0 then 0 else if n <= f then 1 else 1 + Pieces(n - f, f)
  }

  lemma {:induction false} PiecesIsCeiling(n: nat, f: nat)
    requires f > 0
    ensures Pieces(n, f) * f < n + f && n <= Pieces(n, f) * f
    ensures Pieces(n, f) == (n + f - 1) / f
  {
    if n > f {
      PiecesIsCeiling(n - f, f);
      assert Pieces(n, f) * f == Pieces(n - f, f) * f + f;
    } else if n > 0 {
      assert 1 * f == f;
    }
    var q := Pieces(n, f);
    assert q * f <= n + f - 1 < (q + 1) * f;
    DivBetween(n + f - 1, f, q);
  }

  lemma MulAtLeast(d: int, f: nat)
    requires f > 0
    ensures d >= 1 ==> d * f >= f
  {
  }

  lemma DivBetween(x: nat, f: nat, q: nat)
    requires f > 0 && q * f <= x < (q + 1) * f
    ensures x / f == q
  {
    var k := x / f;
    assert k * f <= x < (k + 1) * f;
    assert (q - k) * f < f && (k - q) * f < f;
    MulAtLeast(q - k, f);
    MulAtLeast(k - q, f);
  }

  lemma {:induction false} PiecesMonotone(a: nat, b: nat, f: nat)
    requires f > 0 && a <= b
    ensures Pieces(a, f) <= Pieces(b, f)
    ensures a + f <= b ==> Pieces(a, f) < Pieces(b, f)
  {
    if b > f && a > f {
      PiecesMonotone(a - f, b - f, f);
    } else if a + f <= b && b > f && a > 0 {
      PiecesMonotone(0, b - f, f);
      assert Pieces(b - f, f) >= 1;
    }
  }

  function PartSize(p: Part): nat {
    if p.first < p.second then p.second - p.first else 0
  }

  /** Fragments of `f` bytes that would fill the missing parts. */
  function Cost(parts: seq<Part>, f: nat): nat
    requires f > 0
  {
    if parts == [] then 0 else Pieces(PartSize(parts[0]), f) + Cost(parts[1..], f)
  }

  lemma CostCons(p: Part, rest: seq<Part>, f: nat)
    requires f > 0
    ensures Cost([p] + rest, f) == Pieces(PartSize(p), f) + Cost(rest, f)
  {
    assert ([p] + rest)[1..] == rest;
  }

  /** What a fragment that starts no later than a part leaves of it. */
  function TrimPart(p: Part, end: nat): seq<Part> {
    if end <= p.first then [p] else if end < p.second then [Part(end, p.second)] else []
  }

  lemma TrimPartCost(p: Part, end: nat, rest: seq<Part>, f: nat)
    requires p.first < p.second && f > 0
    ensures Cost(TrimPart(p, end) + rest, f) <= Pieces(PartSize(p), f) + Cost(rest, f)
    ensures p.first < end && (p.first + f <= end || p.second <= end) ==>
              Cost(TrimPart(p, end) + rest, f) < Pieces(PartSize(p), f) + Cost(rest, f)
  {
    if end <= p.first {
      CostCons(p, rest, f);
    } else if end < p.second {
      CostCons(Part(end, p.second), rest, f);
      PiecesMonotone(p.second - end, p.second - p.first, f);
    } else {
      assert TrimPart(p, end) + rest == rest;
    }
  }

  /** A fragment that starts below every part only trims the front of the list. */
  lemma {:induction false} TrimCost(parts: seq<Part>, start: nat, end: nat, f: nat)
    requires WellFormed(parts) && f > 0 && start < end
    requires forall p :: p in parts ==> start <= p.first
    ensures Cost(Cut(parts, start, end), f) <= Cost(parts, f)
    ensures parts != [] && parts[0].first == start && (start + f <= end || parts[0].second <= end) ==>
              Cost(Cut(parts, start, end), f) < Cost(parts, f)
  {
    if parts != [] {
      var p, tail := parts[0], parts[1..];
      assert p in parts;
      WellFormedTail(parts);
      TrimCost(tail, start, end, f);
      assert CutPart(p, start, end) == TrimPart(p, end);
      TrimPartCost(p, end, Cut(tail, start, end), f);
    }
  }

  /** The sender is a message the receiver hands to the application. */
  predicate ForApplication(m: Message) {
    m.cmd != PING && m.cmd != REMOVE_FRAGMENT && !m.fragmentQuery && |m.device| < MAX_MESSAGE_SIZE
  }

  /** The reply to a query covers the part asked for.  It is a fragment unless the whole
      message was asked for at once. */
  lemma ReplyCovers(src: seq<byte>, e: Entry, m: Message)
    requires Filling(src, e) && m.Valid() && m.device == src
    ensures var (pos, size) := NextPart(e.parts, e.window);
            var reply := Seek(m, pos, size);
            && reply.Valid() && 0 < size && pos + size <= |src|
            && (reply.Fragmented() <==> size < |src|)
            && (reply.Fragmented() ==> reply.pos == pos && pos + size <= reply.SliceEnd())
  {
    var (pos, size) := NextPart(e.parts, e.window);
    assert Missing(e.parts, pos) && Missing(e.parts, pos + size - 1);
  }

  /** Query, reply, receipt: what the receiver holds after one exchange. */
  function Exchange(m: Message, id: byte, e: Entry, awaited: bool): Reaction
    requires WellFormed(e.parts) && m.Valid()
  {
    var part := NextPart(e.parts, e.window);
    ReactTo(Seek(m, part.0, part.1), id, Some(e), awaited)
  }

  /** The three steps of an exchange: the receiver's query reaches the sender, the sender
      replies, and the reply arrives. */
  function Steps(codec: Codec, s: Sys, awaited: bool, now: int): seq<Action>
    requires codec.Valid() && s.sender.Valid() && s.entry.Some? && WellFormed(s.entry.value.parts)
  {
    var part := NextPart(s.entry.value.parts, s.entry.value.window);
    [Request(part.0, part.1), Transmit,
     Receive(PacketBytes(codec, Seek(s.sender, part.0, part.1), s.id), awaited, now)]
  }

  /** The system after `n` exchanges, or fewer if the receiver has nothing left to ask for.
      Their replies arrive at times(k), times(k + 1) and so on. */
  ghost function After(codec: Codec, s: Sys, k: nat, n: nat, awaited: bool, times: nat -> int): Sys
    requires codec.Valid() && s.sender.Valid()
    decreases n
  {
    if n == 0 || s.entry.None? || !WellFormed(s.entry.value.parts) then s
    else After(codec, Run(codec, s, Steps(codec, s, awaited, times(k))), k + 1, n - 1, awaited, times)
  }

  lemma RunLast(codec: Codec, s: Sys, actions: seq<Action>, a: Action)
    requires codec.Valid() && s.sender.Valid()
    ensures Run(codec, s, actions + [a]) == Next(codec, Run(codec, s, actions), a)
  {
    assert (actions + [a])[..|actions|] == actions;
  }

  lemma RunTwo(codec: Codec, s: Sys, a: Action, b: Action)
    requires codec.Valid() && s.sender.Valid()
    ensures Run(codec, s, [a, b]) == Next(codec, Next(codec, s, a), b)
  {
    RunLast(codec, s, [], a);
    RunLast(codec, s, [a], b);
    assert [] + [a] == [a] && [a] + [b] == [a, b];
  }

  lemma RunThree(codec: Codec, s: Sys, a: Action, b: Action, c: Action)
    requires codec.Valid() && s.sender.Valid()
    ensures Run(codec, s, [a, b, c]) == Next(codec, Run(codec, s, [a, b]), c)
    ensures Run(codec, s, [a, b]) == Next(codec, Next(codec, s, a), b)
  {
    RunTwo(codec, s, a, b);
    RunLast(codec, s, [a, b], c);
    assert [a, b] + [c] == [a, b, c];
  }

  // ---------- the filter in front of the receiver ----------

  /** The id has an entry in the filter's list that is younger than 10 s. */
  predicate Fresh(filter: IdFilter.State, id: byte, now: int) {
    id as int in filter.lost && now - filter.lost[id as int] < IdFilter.LIFETIME
  }

  /** The packet reveals a gap while its own id is in the list for more than 10 s. */
  predicate Outdated(s: Sys, repeated: bool, now: int) {
    var id := s.id as int;
    && !IdFilter.Late(s.filter, repeated, id) && IdFilter.Gap(s.filter, id)
    && id in s.filter.lost && now - s.filter.lost[id] > IdFilter.LIFETIME
  }

  /** A packet of the message passes the filter if and only if it is not REPEATED or its id
      has a fresh entry, wherever the counter stands.  A REPEATED packet never costs the
      message its entry; another one does if and only if it is outdated. */
  lemma OwnPacket(s: Sys, repeated: bool, now: int)
    ensures var (v, entry) := Filter(s, repeated, s.id, now);
            && (v.passed <==> !repeated || Fresh(s.filter, s.id, now))
            && (!v.passed ==> s.id as int !in v.state.lost)
            && entry == (if Outdated(s, repeated, now) then None else s.entry)
  {
  }

  /** A packet of another message costs this one its entry if and only if it reveals a gap
      and the id of this one is in the list for more than 10 s, or is among the 155 ids
      after an id below 100. */
  lemma OtherPacket(codec: Codec, s: Sys, repeated: bool, other: byte, now: int)
    requires codec.Valid() && s.sender.Valid() && other != s.id && s.entry.Some?
    ensures var s', id, o := Next(codec, s, Other(repeated, other, now)), s.id as int, other as int;
            && s'.filter.next == IdFilter.Admit(s.filter, repeated, o, now).state.next
            && s'.filter.lost == IdFilter.Admit(s.filter, repeated, o, now).state.lost
            && s'.delivered == s.delivered && s'.sender == s.sender
            && (s'.entry == None || s'.entry == s.entry)
            && (s'.entry == None <==>
                && !IdFilter.Late(s.filter, repeated, o) && IdFilter.Gap(s.filter, o) && id in s.filter.lost
                && (now - s.filter.lost[id] > 10_000 || (o < 100 && o < id < o + 156)))
  {
    var id, o := s.id as int, other as int;
    if id in s.filter.lost {
      IdFilter.StaleWindow(id, s.filter.lost[id], o, now);
    }
  }

  /** A reply that arrives now passes the filter and finds the entry. */
  predicate OnTime(s: Sys, now: int) {
    (s.sender.repeated ==> Fresh(s.filter, s.id, now)) && !Outdated(s, s.sender.repeated, now)
  }

  /** Nothing but position, id and fragment size of the message changes. */
  predicate SameMessage(m: Message, m': Message) {
    m' == m.(pos := m'.pos, id := m'.id, fragmentSize := m'.fragmentSize)
  }

  /** The system after a reply arrived: what is left when the filter dropped it, or what the
      handler made of it. */
  lemma ExchangeArrives(codec: Codec, s: Sys, awaited: bool, now: int) returns (s1: Sys, reply: Message)
    requires codec.Valid() && s.sender.Valid() && s.entry.Some? && WellFormed(s.entry.value.parts)
    ensures var part := NextPart(s.entry.value.parts, s.entry.value.window);
            reply == Seek(s.sender, part.0, part.1) && reply.Valid()
    ensures s1.sender.Valid() && SameMessage(s.sender, s1.sender) && s1.id == s.id
    ensures s1.filter == s.filter && s1.entry == s.entry && s1.delivered == s.delivered
    ensures Run(codec, s, Steps(codec, s, awaited, now)) ==
            var (v, entry) := Filter(s1, reply.repeated, s1.id, now);
            if !v.passed then s1.(filter := v.state, entry := entry)
            else Reacted(s1, v.state, ReactTo(reply, s1.id, entry, awaited),
                         reply.cmd != REMOVE_FRAGMENT && !reply.fragmentQuery && reply.Fragmented(), now)
  {
    var part := NextPart(s.entry.value.parts, s.entry.value.window);
    var steps := Steps(codec, s, awaited, now);
    reply := Seek(s.sender, part.0, part.1);
    RunThree(codec, s, steps[0], steps[1], steps[2]);
    s1 := Run(codec, s, [steps[0], steps[1]]);
    ArriveOwn(codec, s1, reply, awaited, now);
  }

  /** An exchange on time changes the system as `Exchange` says, and the next one is on time
      if it comes within 10 s. */
  lemma ExchangeIsRun(codec: Codec, s: Sys, awaited: bool, now: int)
    requires codec.Valid() && s.sender.Valid() && s.entry.Some? && WellFormed(s.entry.value.parts)
    requires OnTime(s, now)
    ensures var s', r := Run(codec, s, Steps(codec, s, awaited, now)), Exchange(s.sender, s.id, s.entry.value, awaited);
            && s'.entry == r.entry && s'.id == s.id && s'.sender.Valid() && SameMessage(s.sender, s'.sender)
            && s'.delivered == (if r.delivered.Some? then s.delivered + [r.delivered.value] else s.delivered)
    ensures var s', part := Run(codec, s, Steps(codec, s, awaited, now)), NextPart(s.entry.value.parts, s.entry.value.window);
            ForApplication(s.sender) && Seek(s.sender, part.0, part.1).Fragmented() && s'.entry.Some? ==>
              s.id as int in s'.filter.lost && s'.filter.lost[s.id as int] == now
  {
    var s1, reply := ExchangeArrives(codec, s, awaited, now);
    OwnPacket(s1, reply.repeated, now);
  }

  /** Without a timeout the window does not fall: it rises by a fifth, rounded down, to its
      limit. */
  lemma GrowKeeps(window: nat, f: nat)
    requires f <= window <= MAX_PACKET_DATA_SIZE
    ensures f <= Grow(window) <= MAX_PACKET_DATA_SIZE
    ensures 5 <= window < 32745 ==> window < Grow(window) <= 32745
    ensures window >= 32745 ==> Grow(window) == window
    ensures Grow(window) < 32745 ==> 5 * (Grow(window) - window) <= window < 5 * (Grow(window) - window) + 5
    ensures window < 32745 && 6 * window >= 5 * 32745 ==> Grow(window) == 32745
  {
  }

  /** After a timeout the transfer goes on with a window of at least 128 bytes, and the
      bound on the exchanges holds for fragments of up to that size. */
  lemma TimeoutKeepsFetching(s: Sys, codec: Codec, f: nat, now: int)
    requires codec.Valid() && Fetching(s, f) && f <= MIN_WINDOW
    ensures Fetching(Next(codec, s, Timeout(now)), f)
    ensures var window := s.entry.value.window;
            Next(codec, s, Timeout(now)).entry.value == s.entry.value.(window := if window < 256 then 128 else window / 2)
    ensures var lost, id := s.filter.lost, s.id as int;
            Next(codec, s, Timeout(now)).filter.lost == if id in lost then lost else lost[id := now]
    ensures forall later :: later - now < IdFilter.LIFETIME && (OnTime(s, later) || s.id as int !in s.filter.lost) ==>
              OnTime(Next(codec, s, Timeout(now)), later)
  {
  }

  /** What a fragment does to the entry. */
  lemma FragmentReply(reply: Message, id: byte, e: Entry, awaited: bool)
    requires reply.Valid() && ForApplication(reply) && reply.Fragmented() && reply.pos < |reply.device|
    ensures var cut, r := Cut(e.parts, reply.pos, reply.SliceEnd()), ReactTo(reply, id, Some(e), awaited);
            if cut == [] then r.delivered.Some? && r.entry.None?
            else r.delivered.None? && r.entry.Some? && r.entry.value.parts == cut
                 && r.entry.value.window == Grow(e.window)
  {
    assert FragmentEnd(reply.pos, |reply.Slice()|) == reply.SliceEnd();
  }

  /** The receiver asks for the whole message at once. */
  predicate AsksForAll(m: Message, e: Entry)
    requires WellFormed(e.parts)
  {
    NextPart(e.parts, e.window).1 == |m.device|
  }

  /** The message is handed on once it is there: it is no answer, or is awaited, or comes
      in fragments. */
  predicate HandsOn(m: Message, e: Entry, awaited: bool)
    requires WellFormed(e.parts)
  {
    m.answerId.None? || awaited || !AsksForAll(m, e)
  }

  /** Once a byte is there the receiver does not ask for all of them. */
  lemma SomeReceived(m: Message, e: Entry, b: int)
    requires Filling(m.device, e) && 0 <= b < |m.device| && !Missing(e.parts, b)
    ensures !AsksForAll(m, e)
  {
    var part := NextPart(e.parts, e.window);
    assert Missing(e.parts, part.0 + part.1 - 1);
  }

  /** One exchange delivers the message or leaves less to fetch.  If the whole message was
      asked for, the reply is no fragment: the entry stays as it was, and an answer that
      nobody awaits is dropped. */
  lemma ExchangeProgress(m: Message, id: byte, e: Entry, f: nat, awaited: bool)
    requires m.Valid() && ForApplication(m) && Filling(m.device, e)
    requires 0 < f <= e.window
    ensures var r := Exchange(m, id, e, awaited);
            if AsksForAll(m, e) then r == Reaction(Some(e), if HandsOn(m, e, awaited) then Some(m.device) else None)
            else
              || r == Reaction(None, Some(m.device))
              || (&& r.delivered.None? && r.entry.Some? && Filling(m.device, r.entry.value)
                  && !AsksForAll(m, r.entry.value) && f <= r.entry.value.window
                  && Cost(r.entry.value.parts, f) < Cost(e.parts, f))
  {
    var (pos, size) := NextPart(e.parts, e.window);
    var reply := Seek(m, pos, size);
    ReplyCovers(m.device, e, m);
    ReactHonest(reply, id, Some(e), awaited);
    if reply.Fragmented() {
      FragmentReply(reply, id, e, awaited);
      FetchCost(e, pos, size, reply.SliceEnd(), f);
      GrowKeeps(e.window, f);
      var r := Exchange(m, id, e, awaited);
      if r.entry.Some? {
        CutMissing(e.parts, pos, reply.SliceEnd(), pos);
        SomeReceived(m, r.entry.value, pos);
      }
    }
  }

  /** A fragment that covers the part asked for lowers the cost. */
  lemma FetchCost(e: Entry, pos: nat, size: nat, end: nat, f: nat)
    requires WellFormed(e.parts) && e.parts != [] && 0 < f <= e.window
    requires (pos, size) == NextPart(e.parts, e.window) && pos + size <= end
    ensures Cost(Cut(e.parts, pos, end), f) < Cost(e.parts, f)
  {
    forall p | p in e.parts
      ensures pos <= p.first
    {
      assert p.Has(p.first);
    }
    TrimCost(e.parts, pos, end, f);
  }

  ghost predicate Fetching(s: Sys, f: nat) {
    && s.sender.Valid() && ForApplication(s.sender)
    && s.entry.Some? && Filling(s.sender.device, s.entry.value) && 0 < f <= s.entry.value.window
  }

  /** One exchange of a transfer that is on time: the whole message was asked for, or it is
      complete, or less is left to fetch. */
  lemma FetchOnce(codec: Codec, s: Sys, f: nat, k: nat, awaited: bool, times: nat -> int) returns (s': Sys)
    requires codec.Valid() && Fetching(s, f) && OnTime(s, times(k))
    ensures s'.sender.Valid() && SameMessage(s.sender, s'.sender)
    ensures forall n: nat :: n > 0 ==>
              After(codec, s, k, n, awaited, times) == After(codec, s', k + 1, n - 1, awaited, times)
    ensures if AsksForAll(s.sender, s.entry.value) then
              s'.delivered ==
              if HandsOn(s.sender, s.entry.value, awaited) then s.delivered + [s.sender.device] else s.delivered
            else
              || s'.delivered == s.delivered + [s.sender.device]
              || (&& s'.delivered == s.delivered && Fetching(s', f) && !AsksForAll(s'.sender, s'.entry.value)
                  && (times(k + 1) - times(k) < IdFilter.LIFETIME ==> OnTime(s', times(k + 1)))
                  && Cost(s'.entry.value.parts, f) < Cost(s.entry.value.parts, f))
  {
    s' := Run(codec, s, Steps(codec, s, awaited, times(k)));
    ExchangeIsRun(codec, s, awaited, times(k));
    ExchangeProgress(s.sender, s.id, s.entry.value, f, awaited);
    ReplyCovers(s.sender.device, s.entry.value, s.sender);
  }

  /** Less than 10 s between one reply and the next. */
  ghost predicate Spaced(times: nat -> int) {
    forall i: nat :: times(i + 1) - times(i) < IdFilter.LIFETIME
  }

  /** From any state of a transfer that is on time, the message arrives within the number of
      fragments that the missing parts are worth, and nothing is handed on before. */
  lemma {:induction false} BoundedTransfer(codec: Codec, s: Sys, f: nat, k: nat, awaited: bool, times: nat -> int)
    returns (n: nat)
    requires codec.Valid() && Fetching(s, f) && HandsOn(s.sender, s.entry.value, awaited)
    requires OnTime(s, times(k)) && Spaced(times)
    ensures 0 < n <= Cost(s.entry.value.parts, f)
    ensures After(codec, s, k, n, awaited, times).delivered == s.delivered + [s.sender.device]
    ensures forall j: nat :: j < n ==> After(codec, s, k, j, awaited, times).delivered == s.delivered
    decreases Cost(s.entry.value.parts, f)
  {
    var s' := FetchOnce(codec, s, f, k, awaited, times);
    CostPositive(s.entry.value.parts, f);
    if s'.delivered == s.delivered + [s.sender.device] {
      n := 1;
    } else {
      var n' := BoundedTransfer(codec, s', f, k + 1, awaited, times);
      n := n' + 1;
    }
  }

  /** The sender resent the message, so its packets are REPEATED, and the id has no fresh
      entry in the filter's list. */
  predicate ShutOut(s: Sys, now: int) {
    s.sender.repeated && !Fresh(s.filter, s.id, now)
  }

  lemma ShutOutOnce(codec: Codec, s: Sys, k: nat, awaited: bool, times: nat -> int) returns (s': Sys)
    requires codec.Valid() && s.sender.Valid() && s.entry.Some? && WellFormed(s.entry.value.parts)
    requires ShutOut(s, times(k))
    ensures s'.sender.Valid() && s'.entry == s.entry && s'.delivered == s.delivered && ShutOut(s', times(k + 1))
    ensures forall n: nat :: n > 0 ==>
              After(codec, s, k, n, awaited, times) == After(codec, s', k + 1, n - 1, awaited, times)
  {
    s' := Run(codec, s, Steps(codec, s, awaited, times(k)));
    var s1, reply := ExchangeArrives(codec, s, awaited, times(k));
    OwnPacket(s1, reply.repeated, times(k));
  }

  /** A transfer whose packets are REPEATED and that is not on time gets no further, however
      often the receiver asks and whenever the replies arrive. */
  lemma {:induction false} NotOnTime(codec: Codec, s: Sys, k: nat, n: nat, awaited: bool, times: nat -> int)
    requires codec.Valid() && s.sender.Valid() && s.entry.Some? && WellFormed(s.entry.value.parts)
    requires ShutOut(s, times(k))
    ensures After(codec, s, k, n, awaited, times).delivered == s.delivered
    ensures After(codec, s, k, n, awaited, times).entry == s.entry
    decreases n
  {
    if n > 0 {
      var s' := ShutOutOnce(codec, s, k, awaited, times);
      NotOnTime(codec, s', k + 1, n - 1, awaited, times);
    }
  }

  /** A plain reply with an answer that nobody awaits is dropped. */
  lemma DroppedOnce(codec: Codec, s: Sys, f: nat, k: nat, awaited: bool, times: nat -> int) returns (s': Sys)
    requires codec.Valid() && Fetching(s, f) && !HandsOn(s.sender, s.entry.value, awaited)
    ensures s'.sender.Valid() && SameMessage(s.sender, s'.sender) && s'.delivered == s.delivered
    ensures s'.entry.Some? ==> Fetching(s', f) && !HandsOn(s'.sender, s'.entry.value, awaited)
    ensures s'.entry == if Outdated(s, s.sender.repeated, times(k)) then None else s.entry
    ensures forall n: nat :: n > 0 ==>
              After(codec, s, k, n, awaited, times) == After(codec, s', k + 1, n - 1, awaited, times)
  {
    s' := Run(codec, s, Steps(codec, s, awaited, times(k)));
    var s1, reply := ExchangeArrives(codec, s, awaited, times(k));
    OwnPacket(s1, reply.repeated, times(k));
    ReplyCovers(s.sender.device, s.entry.value, s.sender);
  }

  /** An answer that nobody awaits and that is asked for as a whole is not handed on, however
      often the query is repeated and whenever the replies arrive. */
  lemma {:induction false} NeverHandedOn(codec: Codec, s: Sys, f: nat, k: nat, n: nat, awaited: bool, times: nat -> int)
    requires codec.Valid() && Fetching(s, f) && !HandsOn(s.sender, s.entry.value, awaited)
    ensures After(codec, s, k, n, awaited, times).delivered == s.delivered
    decreases n
  {
    if n > 0 {
      var s' := DroppedOnce(codec, s, f, k, awaited, times);
      if s'.entry.Some? {
        NeverHandedOn(codec, s', f, k + 1, n - 1, awaited, times);
      }
    }
  }

  lemma CostPositive(parts: seq<Part>, f: nat)
    requires WellFormed(parts) && parts != [] && f > 0
    ensures Cost(parts, f) >= 1
  {
    assert PartSize(parts[0]) > 0;
  }

  /** The first two steps of a transfer: the announcement is sent and received. */
  function Announce(codec: Codec, m: Message, id: byte, awaited: bool, now: int): seq<Action>
    requires codec.Valid() && m.Valid()
  {
    [Transmit, Receive(PacketBytes(codec, m, id), awaited, now)]
  }

  /** The announcement opens an entry with the whole message missing if and only if it is
      not REPEATED or its id has a fresh entry in the filter's list. */
  lemma AnnouncementOpensEntry(codec: Codec, m: Message, id: byte, filter: IdFilter.State, awaited: bool, now: int)
    requires codec.Valid() && m.Valid() && ForApplication(m)
    requires m.Fragmented() && m.pos == |m.device|
    ensures var s := Run(codec, Start(m, id, filter), Announce(codec, m, id, awaited, now));
            && s.delivered == [] && s.sender.Valid()
            && (s.entry.Some? <==> !m.repeated || Fresh(filter, id, now))
            && (s.entry.Some? ==>
                  && Fetching(s, m.fragmentSize) && SameMessage(m, s.sender) && s.id == id
                  && s.filter.lost[id as int := now] == s.filter.lost
                  && s.entry.value.parts == [Part(0, |m.device|)] && s.entry.value.window == Grow(m.fragmentSize))
  {
    var s1 := AnnouncementArrives(codec, m, id, filter, awaited, now);
    OwnPacket(s1, m.repeated, now);
    AnnouncementReaction(m, id, awaited);
  }

  lemma AnnouncementArrives(codec: Codec, m: Message, id: byte, filter: IdFilter.State, awaited: bool, now: int)
    returns (s1: Sys)
    requires codec.Valid() && m.Valid() && ForApplication(m) && m.Fragmented()
    ensures s1.sender.Valid() && SameMessage(m, s1.sender) && s1.id == id
    ensures s1.filter == filter && s1.entry == None && s1.delivered == []
    ensures Run(codec, Start(m, id, filter), Announce(codec, m, id, awaited, now)) ==
            var (v, entry) := Filter(s1, m.repeated, s1.id, now);
            if !v.passed then s1.(filter := v.state, entry := entry)
            else Reacted(s1, v.state, ReactTo(m, id, entry, awaited), true, now)
  {
    var start := Start(m, id, filter);
    RunTwo(codec, start, Transmit, Receive(PacketBytes(codec, m, id), awaited, now));
    s1 := Next(codec, start, Transmit);
    ArriveOwn(codec, s1, m, awaited, now);
  }

  lemma AnnouncementReaction(m: Message, id: byte, awaited: bool)
    requires m.Valid() && ForApplication(m) && m.Fragmented() && m.pos == |m.device|
    ensures ReactTo(m, id, None, awaited) ==
            Reaction(Some(Entry(Grow(m.fragmentSize), [], [Part(0, |m.device|)])), None)
    ensures Filling(m.device, Entry(Grow(m.fragmentSize), [], [Part(0, |m.device|)]))
    ensures m.fragmentSize <= Grow(m.fragmentSize)
  {
    ReactHonest(m, id, None, awaited);
    GrowKeeps(m.fragmentSize, m.fragmentSize);
    assert m.Slice() == [];
  }

  lemma WholeCost(n: nat, f: nat)
    requires f > 0
    ensures Cost([Part(0, n)], f) == Pieces(n, f)
  {
    assert [Part(0, n)][1..] == [];
  }

  /** A message of N bytes announced with fragment size f, on a link that loses nothing and
      replies within 10 s: the receiver's queries fetch it within Pieces(N, f), that is
      ceil(N / f), exchanges.  It is handed on if and only if the announcement is not REPEATED
      or its id has a fresh entry, and it is no answer, or is awaited, or does not fit into
      the first window. */
  lemma LosslessTransfer(codec: Codec, m: Message, id: byte, filter: IdFilter.State, awaited: bool, times: nat -> int)
    returns (n: nat)
    requires codec.Valid() && m.Valid() && ForApplication(m)
    requires m.Fragmented() && m.pos == |m.device| && Spaced(times)
    ensures n <= Pieces(|m.device|, m.fragmentSize)
    ensures var s := Run(codec, Start(m, id, filter), Announce(codec, m, id, awaited, times(0)));
            && s.sender.Valid()
            && if (!m.repeated || Fresh(filter, id, times(0)))
                  && (m.answerId.None? || awaited || |m.device| > Grow(m.fragmentSize)) then
                 && After(codec, s, 1, n, awaited, times).delivered == [m.device]
                 && forall j: nat :: j < n ==> After(codec, s, 1, j, awaited, times).delivered == []
               else
                 forall j: nat :: After(codec, s, 1, j, awaited, times).delivered == []
  {
    AnnouncementOpensEntry(codec, m, id, filter, awaited, times(0));
    var s := Run(codec, Start(m, id, filter), Announce(codec, m, id, awaited, times(0)));
    n := TransferFromEntry(codec, m, s, awaited, times);
  }

  /** What becomes of a transfer after its announcement arrived, or did not. */
  lemma TransferFromEntry(codec: Codec, m: Message, s: Sys, awaited: bool, times: nat -> int) returns (n: nat)
    requires codec.Valid() && m.Valid() && s.sender.Valid() && s.delivered == [] && Spaced(times)
    requires s.entry.Some? ==>
               && Fetching(s, m.fragmentSize) && SameMessage(m, s.sender)
               && s.filter.lost[s.id as int := times(0)] == s.filter.lost
               && s.entry.value.parts == [Part(0, |m.device|)] && s.entry.value.window == Grow(m.fragmentSize)
    ensures n <= Pieces(|m.device|, m.fragmentSize)
    ensures if s.entry.Some? && (m.answerId.None? || awaited || |m.device| > Grow(m.fragmentSize)) then
              && After(codec, s, 1, n, awaited, times).delivered == [m.device]
              && forall j: nat :: j < n ==> After(codec, s, 1, j, awaited, times).delivered == []
            else
              forall j: nat :: After(codec, s, 1, j, awaited, times).delivered == []
  {
    n := 0;
    if s.entry.Some? {
      WholeCost(|m.device|, m.fragmentSize);
      assert s.delivered + [m.device] == [m.device];
      assert s.id as int in s.filter.lost[s.id as int := times(0)];
      assert times(0 + 1) - times(0) < IdFilter.LIFETIME;
      if HandsOn(s.sender, s.entry.value, awaited) {
        n := BoundedTransfer(codec, s, m.fragmentSize, 1, awaited, times);
      } else {
        forall j: nat
          ensures After(codec, s, 1, j, awaited, times).delivered == []
        {
          NeverHandedOn(codec, s, m.fragmentSize, 1, j, awaited, times);
        }
      }
    }
  }

  /** A delivery ends the entry, except when the whole message was asked for at once: the
      reply is then no fragment, and the entry stays as it was. */
  lemma DeliveryAndEntry(m: Message, id: byte, e: Entry, awaited: bool)
    requires m.Valid() && ForApplication(m) && Filling(m.device, e)
    ensures var r := Exchange(m, id, e, awaited);
            r.delivered.Some? ==> (r.entry.Some? <==> AsksForAll(m, e))
    ensures AsksForAll(m, e) ==>
              Exchange(m, id, e, awaited) == Reaction(Some(e), if HandsOn(m, e, awaited) then Some(m.device) else None)
  {
    ExchangeProgress(m, id, e, e.window, awaited);
  }
}

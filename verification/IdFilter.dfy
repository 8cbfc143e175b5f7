/** The filter in front of the message handlers: an 8-bit counter of the next expected
id and a list of ids that were skipped.  Ids and the counter are integers below 256;
where the source computes in 8 bits the reduction is written out, where it computes in
int there is none. */
module IdFilter {

  const IDS := 256
  const WINDOW := 100
  const LIFETIME := 10_000   // milliseconds a skipped id is waited for

  type Lost = map<int, int>  // skipped id -> time stamp

  datatype State = State(next: int, lost: Lost, fragments: set<int>)

  ghost predicate Valid(st: State) {
    0 <= st.next < IDS && forall id :: id in st.lost ==> 0 <= id < IDS
  }

  /** The test that drops an entry of the list when `msgId` reveals a gap. */
  predicate Stale(id: int, stamp: int, msgId: int, now: int) {
    var minId, maxId, tmpId := 255 + (msgId - WINDOW) % IDS, 255 + msgId, 255 + id;
    now - LIFETIME > stamp || (minId > tmpId && tmpId > maxId)
  }

  /** The second half of the test only ever holds for ids ahead of a small `msgId`. */
  lemma StaleWindow(id: int, stamp: int, msgId: int, now: int)
    requires 0 <= id < IDS && 0 <= msgId < IDS
    ensures Stale(id, stamp, msgId, now) <==>
            now - 10_000 > stamp || (msgId < 100 && msgId < id < msgId + 156)
  {
  }

  function Purge(lost: Lost, msgId: int, now: int): Lost {
    map id | id in lost && !Stale(id, lost[id], msgId, now) :: lost[id]
  }

  /** Where filling starts: a gap of more than 100 without a wrap is cut to its last 100. */
  function FillStart(next: int, msgId: int): int {
    if msgId > next + WINDOW then msgId - WINDOW else next
  }

  /** Steps from `a` forward to `b` on the ring of ids. */
  function Distance(a: int, b: int): int {
    if a <= b then b - a else b - a + IDS
  }

  function Succ(id: int): int {
    (id + 1) % IDS
  }

  lemma RingStep(start: int, at: int, end: int)
    requires 0 <= start < IDS && 0 <= at < IDS && 0 <= end < IDS
    requires at != end && Distance(start, at) <= Distance(start, end)
    ensures 0 <= Succ(at) < IDS && Distance(start, at) < 255
    ensures Distance(start, Succ(at)) == Distance(start, at) + 1 <= Distance(start, end)
    ensures 0 <= Distance(Succ(at), end) < Distance(at, end)
  {
  }

  predicate Skipped(id: int, start: int, msgId: int) {
    0 <= id < IDS && Distance(start, id) < Distance(start, msgId)
  }

  /** The list once the ids from `start` up to `msgId` are entered; present ids keep their stamp. */
  function Enter(lost: Lost, start: int, msgId: int, now: int): Lost {
    map id | id in lost.Keys + (set i | 0 <= i < IDS && Skipped(i, start, msgId)) ::
      if id in lost then lost[id] else now
  }

  /** `fill_lost_msg` */
  function Fill(st: State, msgId: int, now: int): State {
    var dropped := set id | id in st.lost && Stale(id, st.lost[id], msgId, now);
    State(msgId,
          Enter(Purge(st.lost, msgId, now), FillStart(st.next, msgId), msgId, now),
          st.fragments - dropped)
  }

  /** A packet that is treated as a late one. */
  predicate Late(st: State, repeated: bool, msgId: int) {
    repeated || (msgId < st.next && st.next - msgId < WINDOW)
  }

  /** A packet that reveals a gap. */
  predicate Gap(st: State, msgId: int) {
    msgId > st.next || st.next - msgId > WINDOW
  }

  datatype Verdict = Verdict(state: State, passed: bool)

  /** The head of `internal_process_message`. */
  function Admit(st: State, repeated: bool, msgId: int, now: int): Verdict {
    if Late(st, repeated, msgId) then
      var found := msgId in st.lost && now - st.lost[msgId] < LIFETIME;
      Verdict(st.(lost := st.lost - {msgId}), found || !repeated)
    else
      var filled := if Gap(st, msgId) then Fill(st, msgId, now) else st;
      Verdict(if msgId + 1 >= filled.next + 1 then filled.(next := Succ(msgId)) else filled, true)
  }

  lemma AdmitValid(st: State, repeated: bool, msgId: int, now: int)
    requires Valid(st) && 0 <= msgId < IDS
    ensures Valid(Admit(st, repeated, msgId, now).state)
  {
  }

  class Filter {
    var nextRxMsgId: int
    var lostMsgList: Lost
    var fragmentedMessages: set<int>

    function View(): State
      reads this
    {
      State(nextRxMsgId, lostMsgList, fragmentedMessages)
    }

    constructor ()
      ensures View() == State(0, map[], {}) && Valid(View())
    {
      nextRxMsgId, lostMsgList, fragmentedMessages := 0, map[], {};
    }

    method IsLostMessage(msgId: int, now: int) returns (found: bool)
      modifies this`lostMsgList
      ensures found <==> msgId in old(lostMsgList) && now - old(lostMsgList)[msgId] < 10_000
      ensures lostMsgList == old(lostMsgList) - {msgId}
    {
      if msgId !in lostMsgList {
        return false;
      }
      var stamp := lostMsgList[msgId];
      lostMsgList := lostMsgList - {msgId};
      return now - stamp < LIFETIME;
    }

    /** The first loop of `fill_lost_msg`: the list is walked in ascending order of ids. */
    method PurgeLost(msgId: int, now: int)
      requires Valid(View())
      modifies this`lostMsgList, this`fragmentedMessages
      ensures lostMsgList == Purge(old(lostMsgList), msgId, now)
      ensures fragmentedMessages == old(fragmentedMessages) -
                (set id | id in old(lostMsgList) && Stale(id, old(lostMsgList)[id], msgId, now))
    {
      var it := 0;
      while it < IDS
        invariant 0 <= it <= IDS
        invariant lostMsgList == map id | id in old(lostMsgList) &&
                    (id >= it || !Stale(id, old(lostMsgList)[id], msgId, now)) :: old(lostMsgList)[id]
        invariant fragmentedMessages == old(fragmentedMessages) -
                    (set id | id in old(lostMsgList) && id < it && Stale(id, old(lostMsgList)[id], msgId, now))
      {
        if it in lostMsgList && Stale(it, lostMsgList[it], msgId, now) {
          fragmentedMessages := fragmentedMessages - {it};
          lostMsgList := lostMsgList - {it};
        }
        it := it + 1;
      }
    }

    /** Enters the skipped ids; called only when `msgId` reveals a gap. */
    method FillLostMsg(msgId: int, now: int) returns (ghost steps: nat)
      requires Valid(View()) && 0 <= msgId < IDS && Gap(View(), msgId)
      modifies this
      ensures View() == Fill(old(View()), msgId, now)
      ensures steps == Distance(FillStart(old(nextRxMsgId), msgId), msgId) <= 155
    {
      PurgeLost(msgId, now);
      ghost var purged := lostMsgList;
      if msgId > nextRxMsgId + WINDOW {
        nextRxMsgId := (msgId - WINDOW) % IDS;
      }
      ghost var start := nextRxMsgId;
      steps := 0;
      EnterNone(purged, start, now);
      while msgId != nextRxMsgId
        invariant 0 <= nextRxMsgId < IDS
        invariant steps == Distance(start, nextRxMsgId) <= Distance(start, msgId)
        invariant lostMsgList == Enter(purged, start, nextRxMsgId, now)
        invariant fragmentedMessages == Fill(old(View()), msgId, now).fragments
        decreases Distance(nextRxMsgId, msgId)
      {
        RingStep(start, nextRxMsgId, msgId);
        EnterOne(purged, start, nextRxMsgId, now);
        if nextRxMsgId !in lostMsgList {
          lostMsgList := lostMsgList[nextRxMsgId := now];
        }
        nextRxMsgId := Succ(nextRxMsgId);
        steps := steps + 1;
      }
    }

    /** Decides whether a packet goes on to its handler. */
    method AdmitMessage(msgId: int, repeated: bool, now: int) returns (passed: bool)
      requires Valid(View()) && 0 <= msgId < IDS
      modifies this
      ensures Valid(View())
      ensures Verdict(View(), passed) == Admit(old(View()), repeated, msgId, now)
    {
      AdmitValid(View(), repeated, msgId, now);
      if repeated || (msgId < nextRxMsgId && nextRxMsgId - msgId < WINDOW) {
        var found := IsLostMessage(msgId, now);
        if !found && repeated {
          return false;
        }
      } else {
        if msgId > nextRxMsgId || nextRxMsgId - msgId > WINDOW {
          ghost var steps := FillLostMsg(msgId, now);
        }
        if msgId + 1 >= nextRxMsgId + 1 {
          nextRxMsgId := Succ(msgId);
        }
      }
      return true;
    }
  }

  lemma EnterNone(lost: Lost, start: int, now: int)
    requires 0 <= start < IDS
    ensures Enter(lost, start, start, now) == lost
  {
    assert forall id :: 0 <= id < IDS ==> !Skipped(id, start, start);
  }

  lemma EnterOne(lost: Lost, start: int, id: int, now: int)
    requires 0 <= start < IDS && 0 <= id < IDS && Distance(start, id) < 255
    ensures var before := Enter(lost, start, id, now);
            Enter(lost, start, Succ(id), now) == if id in before then before else before[id := now]
  {
    forall i | 0 <= i < IDS
      ensures Skipped(i, start, Succ(id)) <==> Skipped(i, start, id) || i == id
    {
    }
  }
}

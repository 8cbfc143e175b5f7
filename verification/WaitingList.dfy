/** Messages that wait for an answer or for a query, and what becomes of them.

A message is owned by one holder at a time: the writer that is about to send it, the
waiting list, or nobody any more.  When it is let go its `finally` callback runs.
 */
module WaitingList {
  import opened Options
  import opened TimeMap

  const ACCURACY := 20            // milliseconds an entry may be taken early
  const FRAGMENT_LIFETIME := 10_000

  /** `token` tells apart messages that have the same id. */
  datatype Message = Message(
    token: nat, id: Option<int>, cmd: int, endTime: int, resendTimeout: int,
    size: int, hasAnswer: bool, hasTimeout: bool, hasFinally: bool)
  {
    /** The id the list goes by: a message without one counts as id 0. */
    function Key(): int {
      if id.Some? then id.value else 0
    }
  }

  type Waiting = seq<Entry<Message>>

  /** The tests the list is searched with. */
  datatype Check = ById(id: int) | ByAnswer(id: int, cmd: int)

  predicate Matches(c: Check, m: Message) {
    m.Key() == c.id && (c.ByAnswer? ==> m.cmd == c.cmd)
  }

  /** Index of the first entry that matches, or the length of the list. */
  function Find(w: Waiting, c: Check): (i: nat)
    ensures i <= |w|
    ensures forall j :: 0 <= j < i ==> !Matches(c, w[j].value)
    ensures i < |w| ==> Matches(c, w[i].value)
  {
    if w == [] || Matches(c, w[0].value) then 0 else 1 + Find(w[1..], c)
  }

  function Found(w: Waiting, c: Check): Option<Message> {
    if Find(w, c) < |w| then Some(w[Find(w, c)].value) else None
  }

  function Without(w: Waiting, c: Check): Waiting {
    var i := Find(w, c);
    if i < |w| then w[..i] + w[i + 1..] else w
  }

  /** `add_to_waiting`: the entry with the same id goes, then the time is claimed. */
  function Enlist(w: Waiting, time: int, m: Message): Waiting {
    Emplace(Without(w, ById(m.Key())), Entry(time, m))
  }

  ghost predicate OnePerId(w: Waiting) {
    forall i, j :: 0 <= i < j < |w| ==> w[i].value.Key() != w[j].value.Key()
  }

  /** No entry of another id has this time. */
  ghost predicate TimeFree(w: Waiting, time: int, id: int) {
    forall e :: e in w && e.time == time ==> e.value.Key() == id
  }

  lemma WithoutKeepsOrder(w: Waiting, c: Check)
    ensures Ascending(w) ==> Ascending(Without(w, c))
    ensures OnePerId(w) ==> OnePerId(Without(w, c))
  {
    var i, r := Find(w, c), Without(w, c);
    assert forall k :: 0 <= k < |r| ==> r[k] == w[if k < i then k else k + 1];
  }

  /** Without its one entry, an id does not occur; the other entries are all there. */
  lemma WithoutId(w: Waiting, id: int)
    requires OnePerId(w)
    ensures forall e :: e in Without(w, ById(id)) <==> e in w && e.value.Key() != id
  {
    var i := Find(w, ById(id));
    if i < |w| {
      var a, b := w[..i], w[i + 1..];
      assert w == a + [w[i]] + b;
      assert forall k :: 0 <= k < |b| ==> b[k].value.Key() != id;
    }
  }

  /** An answer finds the message with its id and its command; that entry leaves, no other. */
  lemma AnswerMeaning(w: Waiting, id: int, cmd: int)
    requires OnePerId(w)
    ensures var found := Found(w, ByAnswer(id, cmd));
            && (found.Some? ==> found.value.Key() == id && found.value.cmd == cmd
                                && exists e :: e in w && e.value == found.value)
            && (found.None? ==> forall e :: e in w ==> !(e.value.Key() == id && e.value.cmd == cmd))
            && forall e :: e in Without(w, ByAnswer(id, cmd)) <==>
                 e in w && !(e.value.Key() == id && e.value.cmd == cmd)
  {
    var i := Find(w, ByAnswer(id, cmd));
    if i < |w| {
      var a, b := w[..i], w[i + 1..];
      assert w == a + [w[i]] + b && w[i] in w;
      assert forall k :: 0 <= k < |b| ==> b[k].value.Key() != id;
    }
  }

  /** A query finds the message with its id; that entry leaves, no other. */
  lemma QueryMeaning(w: Waiting, id: int)
    requires OnePerId(w)
    ensures var found := Found(w, ById(id));
            && (found.Some? ==> found.value.Key() == id && exists e :: e in w && e.value == found.value)
            && (found.None? ==> forall e :: e in w ==> e.value.Key() != id)
            && forall e :: e in Without(w, ById(id)) <==> e in w && e.value.Key() != id
  {
    WithoutId(w, id);
    var i := Find(w, ById(id));
    assert i < |w| ==> w[i] in w;
  }

  lemma EmplaceHas(w: Waiting, e: Entry<Message>)
    requires Ascending(w)
    ensures forall x :: x in Emplace(w, e) <==> x in w || (x == e && !HasTime(w, e.time))
  {
    EmplaceContents(w, e);
    forall x
      ensures x in Emplace(w, e) <==> x in multiset(Emplace(w, e))
      ensures x in w <==> x in multiset(w)
    {
    }
  }

  /** What `add_to_waiting` leaves: the entries of other ids as they were, and under the id
      of the message the message itself, unless another id holds its time. */
  lemma EnlistMeaning(w: Waiting, time: int, m: Message)
    requires Ascending(w) && OnePerId(w)
    ensures var r := Enlist(w, time, m);
            && Ascending(r) && OnePerId(r)
            && (forall e :: e in r && e.value.Key() == m.Key() ==> e == Entry(time, m))
            && (forall e: Entry<Message> :: e.value.Key() != m.Key() ==> (e in r <==> e in w))
            && (Entry(time, m) in r <==> TimeFree(w, time, m.Key()))
            && (m.id.None? ==> forall e :: e in r ==> e.value.id != Some(0))
  {
    var w', r := Without(w, ById(m.Key())), Enlist(w, time, m);
    WithoutKeepsOrder(w, ById(m.Key()));
    WithoutId(w, m.Key());
    EmplaceKeepsOrder(w', Entry(time, m));
    EmplaceHas(w', Entry(time, m));
    TimeOfOther(w, w', time, m.Key());
    forall i, j | 0 <= i < j < |r|
      ensures r[i].value.Key() != r[j].value.Key()
    {
      assert r[i] in r && r[j] in r && r[i].time < r[j].time;
      if r[i].value.Key() != m.Key() && r[j].value.Key() != m.Key() {
        var a :| 0 <= a < |w| && w[a] == r[i];
        var b :| 0 <= b < |w| && w[b] == r[j];
      }
    }
  }

  lemma TimeOfOther(w: Waiting, w': Waiting, time: int, id: int)
    requires forall e :: e in w' <==> e in w && e.value.Key() != id
    ensures HasTime(w', time) <==> exists e :: e in w && e.time == time && e.value.Key() != id
  {
    if HasTime(w', time) {
      var i :| 0 <= i < |w'| && w'[i].time == time;
      assert w'[i] in w';
    }
    if e :| e in w && e.time == time && e.value.Key() != id {
      assert e in w';
    }
  }

  class List {
    var waitingMessages: Waiting

    ghost predicate Valid()
      reads this
    {
      Ascending(waitingMessages) && OnePerId(waitingMessages)
    }

    constructor ()
      ensures waitingMessages == [] && Valid()
    {
      waitingMessages := [];
    }

    method PopWaitingMessage(check: Check) returns (msg: Option<Message>)
      modifies this
      ensures msg == Found(old(waitingMessages), check)
      ensures waitingMessages == Without(old(waitingMessages), check)
      ensures old(Valid()) ==> Valid()
    {
      ghost var w := waitingMessages;
      WithoutKeepsOrder(w, check);
      var it := 0;
      while it < |waitingMessages|
        invariant 0 <= it <= |w| && waitingMessages == w && it <= Find(w, check)
      {
        if Matches(check, waitingMessages[it].value) {
          msg := Some(waitingMessages[it].value);
          waitingMessages := waitingMessages[..it] + waitingMessages[it + 1..];
          return;
        }
        it := it + 1;
      }
      msg := None;
    }

    /** An answer takes out the message with its id and its command, and nothing else. */
    method PopWaitingAnswer(answerId: int, cmd: int) returns (msg: Option<Message>)
      requires Valid()
      modifies this
      ensures Valid() && msg == Found(old(waitingMessages), ByAnswer(answerId, cmd))
      ensures waitingMessages == Without(old(waitingMessages), ByAnswer(answerId, cmd))
      ensures msg.Some? ==> msg.value.Key() == answerId && msg.value.cmd == cmd
                            && exists e :: e in old(waitingMessages) && e.value == msg.value
      ensures msg.None? ==> forall e :: e in old(waitingMessages) ==> !(e.value.Key() == answerId && e.value.cmd == cmd)
      ensures forall e :: e in waitingMessages <==>
                e in old(waitingMessages) && !(e.value.Key() == answerId && e.value.cmd == cmd)
    {
      AnswerMeaning(waitingMessages, answerId, cmd);
      msg := PopWaitingMessage(ByAnswer(answerId, cmd));
    }

    /** A fragment query takes out the message with its id, and nothing else. */
    method PopWaitingFragment(fragmentedMsgId: int) returns (msg: Option<Message>)
      requires Valid()
      modifies this
      ensures Valid() && msg == Found(old(waitingMessages), ById(fragmentedMsgId))
      ensures waitingMessages == Without(old(waitingMessages), ById(fragmentedMsgId))
      ensures msg.Some? ==> msg.value.Key() == fragmentedMsgId
                            && exists e :: e in old(waitingMessages) && e.value == msg.value
      ensures msg.None? ==> forall e :: e in old(waitingMessages) ==> e.value.Key() != fragmentedMsgId
      ensures forall e :: e in waitingMessages <==> e in old(waitingMessages) && e.value.Key() != fragmentedMsgId
    {
      QueryMeaning(waitingMessages, fragmentedMsgId);
      msg := PopWaitingMessage(ById(fragmentedMsgId));
    }

    /** The message becomes the only entry of its id, the other entries stay; it is not
        stored if an entry of another id has the same time. */
    method AddToWaiting(time: int, message: Message)
      requires Valid()
      modifies this
      ensures Valid() && waitingMessages == Enlist(old(waitingMessages), time, message)
      ensures forall e :: e in waitingMessages && e.value.Key() == message.Key() ==> e == Entry(time, message)
      ensures forall e: Entry<Message> :: e.value.Key() != message.Key() ==>
                (e in waitingMessages <==> e in old(waitingMessages))
      ensures Entry(time, message) in waitingMessages <==> TimeFree(old(waitingMessages), time, message.Key())
      ensures message.id.None? ==> forall e :: e in waitingMessages ==> e.value.id != Some(0)
    {
      EnlistMeaning(waitingMessages, time, message);
      var popped := PopWaitingMessage(ById(message.Key()));
      waitingMessages := Emplace(waitingMessages, Entry(time, message));
    }

    /** Takes every entry that is due. */
    method PopWaitingMessages(now: int) returns (messages: seq<Message>)
      modifies this
      ensures var k := Due(old(waitingMessages), now + 20);
              && waitingMessages == old(waitingMessages)[k..] && |messages| == k
              && forall i :: 0 <= i < k ==> messages[i] == old(waitingMessages)[i].value
      ensures old(Valid()) ==> Valid()
    {
      messages := [];
      ghost var w, k := waitingMessages, 0;
      while waitingMessages != []
        invariant k <= |w| && waitingMessages == w[k..] && |messages| == k
        invariant forall i :: 0 <= i < k ==> messages[i] == w[i].value
        invariant AllBy(w[..k], now + ACCURACY)
        decreases |waitingMessages|
      {
        if waitingMessages[0].time > now + ACCURACY {
          break;
        }
        assert w[..k + 1] == w[..k] + [waitingMessages[0]];
        messages := messages + [waitingMessages[0].value];
        waitingMessages := waitingMessages[1..];
        k := k + 1;
      }
      DueExactly(w, now + ACCURACY, k);
    }
  }
}

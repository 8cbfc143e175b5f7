/** What each event does to the messages: who holds them afterwards, and which callbacks run. */
module WaitingEvents {
  import opened Options
  import opened TimeMap
  import opened WaitingList
  import opened Ownership

  lemma OnePerIdOf(w: Waiting)
    requires Unique(w)
    ensures OnePerId(w)
  {
  }

  /** The callbacks with which a message ends. */
  lemma EndingHas(calls: seq<Callback>, m: Message, how: Ending, t: nat)
    ensures var calls' := calls + EndingCalls(m, how);
            && (Answered(t) in calls' <==> Answered(t) in calls || (how == WithAnswer && t == m.token))
            && (TimedOut(t) in calls' <==> TimedOut(t) in calls || (how == WithTimeout && t == m.token))
  {
    var last := EndingCalls(m, how);
    var calls' := calls + last;
    assert Answered(t) in calls' <==> Answered(t) in calls || Answered(t) in last;
    assert TimedOut(t) in calls' <==> TimedOut(t) in calls || TimedOut(t) in last;
    assert how == WithAnswer ==> last[0] == Answered(m.token);
    assert how == WithTimeout ==> last[0] == TimedOut(m.token);
  }

  // ---------- an answer ----------

  /** An answer that arrives is for this message. */
  ghost predicate Awaits(w: World, t: nat, id: int, cmd: int) {
    exists e :: e in w.waiting && e.value.token == t && e.value.Key() == id && e.value.cmd == cmd
  }

  /** An answer ends the message that waits with its id and its command, and runs its answer
      handler if it has one; it does nothing to any other message. */
  lemma AnswerEvent(w: World, id: int, cmd: int, t: nat)
    requires Inv(w, {}) && t in w.submitted
    ensures var w' := Next(w, Answer(id, cmd));
            && (Answered(t) in w'.calls <==>
                Answered(t) in w.calls || (Awaits(w, t, id, cmd) && w.submitted[t].hasAnswer))
            && (TimedOut(t) in w'.calls <==> TimedOut(t) in w.calls)
            && (t in w'.finished <==> t in w.finished || Awaits(w, t, id, cmd))
            && (Listed(w'.waiting, t) <==> Listed(w.waiting, t) && !Awaits(w, t, id, cmd))
            && w'.sending == w.sending
  {
    OnePerIdOf(w.waiting);
    AnswerMeaning(w.waiting, id, cmd);
    var found := Found(w.waiting, ByAnswer(id, cmd));
    if found.Some? {
      var how := if found.value.hasAnswer then WithAnswer else Silently;
      EndingHas(w.calls, found.value, how, t);
      AwaitsFound(w, id, cmd, found.value, t);
    }
  }

  lemma AwaitsFound(w: World, id: int, cmd: int, m: Message, t: nat)
    requires Inv(w, {}) && Found(w.waiting, ByAnswer(id, cmd)) == Some(m)
    ensures Awaits(w, t, id, cmd) <==> t == m.token
    ensures Fits(w, m)
    ensures Listed(Without(w.waiting, ByAnswer(id, cmd)), t) <==> Listed(w.waiting, t) && t != m.token
  {
    OnePerIdOf(w.waiting);
    AnswerMeaning(w.waiting, id, cmd);
    var e :| e in w.waiting && e.value == m;
    if x :| x in w.waiting && x.value.token == t && x.value.Key() == id && x.value.cmd == cmd {
      SameEntry(w.waiting, x, e);
    }
    if y :| y in w.waiting && y.value.token == t && t != m.token {
      assert y in Without(w.waiting, ByAnswer(id, cmd)) || (y.value.Key() == id && y.value.cmd == cmd);
      if y.value.Key() == id {
        SameEntry(w.waiting, y, e);
      }
    }
  }

  lemma SameEntry(w: Waiting, x: Entry<Message>, y: Entry<Message>)
    requires Unique(w) && x in w && y in w
    requires x.value.Key() == y.value.Key() || x.value.token == y.value.token
    ensures x == y
  {
    var i :| 0 <= i < |w| && w[i] == x;
    var j :| 0 <= j < |w| && w[j] == y;
    assert i == j;
  }

  // ---------- entering the list ----------

  /** A message that enters the list waits there if its time is free, and is let go if not;
      an entry with its id is let go, the others stay; no answer or timeout callback runs. */
  lemma EnterEvent(w: World, time: int, m: Message)
    requires Unique(w.waiting) && Ascending(w.waiting)
    ensures var w' := EnterList(w, time, m);
            && (if TimeFree(w.waiting, time, m.Key()) then Entry(time, m) in w'.waiting else m.token in w'.finished)
            && (forall e :: e in w.waiting && e.value.Key() != m.Key() ==> e in w'.waiting)
            && (forall e :: e in w.waiting && e.value.Key() == m.Key() ==> e.value.token in w'.finished)
            && w'.sending == w.sending
            && (forall t :: Answered(t) in w'.calls <==> Answered(t) in w.calls)
            && (forall t :: TimedOut(t) in w'.calls <==> TimedOut(t) in w.calls)
  {
    EnterWaits(w, time, m);
    EnterFinishes(w, time, m);
    EnterCalls(w, time, m);
  }

  lemma EnterWaits(w: World, time: int, m: Message)
    requires Unique(w.waiting) && Ascending(w.waiting)
    ensures var w' := EnterList(w, time, m);
            && (TimeFree(w.waiting, time, m.Key()) ==> Entry(time, m) in w'.waiting)
            && (forall e :: e in w.waiting && e.value.Key() != m.Key() ==> e in w'.waiting)
            && w'.sending == w.sending
  {
    OnePerIdOf(w.waiting);
    EnterListIsEnlist(w, time, m);
    EnlistMeaning(w.waiting, time, m);
  }

  lemma EnterFinishes(w: World, time: int, m: Message)
    requires Unique(w.waiting) && Ascending(w.waiting)
    ensures var w' := EnterList(w, time, m);
            && (!TimeFree(w.waiting, time, m.Key()) ==> m.token in w'.finished)
            && (forall e :: e in w.waiting && e.value.Key() == m.Key() ==> e.value.token in w'.finished)
  {
    OnePerIdOf(w.waiting);
    QueryMeaning(w.waiting, m.Key());
    var rest := Without(w.waiting, ById(m.Key()));
    TimeOfOther(w.waiting, rest, time, m.Key());
    forall e | e in w.waiting && e.value.Key() == m.Key()
      ensures Found(w.waiting, ById(m.Key())) == Some(e.value)
    {
      var x :| x in w.waiting && x.value == Found(w.waiting, ById(m.Key())).value;
      SameEntry(w.waiting, x, e);
    }
  }

  lemma EnterCalls(w: World, time: int, m: Message)
    ensures var w' := EnterList(w, time, m);
            && (forall t :: Answered(t) in w'.calls <==> Answered(t) in w.calls)
            && (forall t :: TimedOut(t) in w'.calls <==> TimedOut(t) in w.calls)
  {
    var found := Found(w.waiting, ById(m.Key()));
    forall t: nat
      ensures Answered(t) in EnterList(w, time, m).calls <==> Answered(t) in w.calls
      ensures TimedOut(t) in EnterList(w, time, m).calls <==> TimedOut(t) in w.calls
    {
      if found.Some? {
        EndingHas(w.calls, found.value, Silently, t);
        EndingHas(w.calls + EndingCalls(found.value, Silently), m, Silently, t);
      } else {
        EndingHas(w.calls, m, Silently, t);
      }
    }
  }

  // ---------- sending ----------

  /** A new message is held by the writer as it was handed over; one that was handed over
      before is not taken twice. */
  lemma SubmitEvent(w: World, m: Message)
    ensures var w' := Next(w, Submit(m));
            if m.token in w.submitted then w' == w
            else w' == w.(submitted := w.submitted[m.token := m], sending := w.sending[m.token := m])
  {
  }

  /** Without a writer a message is let go, and only its final callback runs. */
  lemma DropEvent(w: World, token: nat)
    requires Inv(w, {}) && token in w.sending
    ensures var w', m := Next(w, Drop(token)), w.sending[token];
            && token in w'.finished && token !in w'.sending && w'.waiting == w.waiting
            && w'.calls == w.calls + if m.hasFinally then [Finally(token, !m.hasAnswer)] else []
  {
  }

  /** A message whose packet was built has an id, the one it had or else the next one.  If it
      was a fragment it lives 10 s from then.  It waits until it is to be resent or ends,
      whichever is first, unless its end has come. */
  lemma PrepareEvent(w: World, token: nat, id: int, fragmented: bool, now: int)
    requires Inv(w, {}) && token in w.sending
    ensures var w', m := Next(w, Prepare(token, id, fragmented, now)), w.sending[token];
            var end := if fragmented then now + 10_000 else m.endTime;
            var sent := m.(id := Some(if m.id.Some? then m.id.value else id), endTime := end);
            var time := if now + m.resendTimeout < end then now + m.resendTimeout else end;
            && (if end > now && TimeFree(w.waiting, time, sent.Key()) then Entry(time, sent) in w'.waiting
                else token in w'.finished)
            && w'.sending == w.sending - {token}
  {
    var m := Prepared(w.sending[token], id, fragmented, now);
    var w1 := w.(sending := w.sending - {token});
    if m.endTime > now {
      EnterWaits(w1, WaitUntil(m, now), m);
      EnterFinishes(w1, WaitUntil(m, now), m);
    }
  }

  // ---------- a fragment query ----------

  /** A query for a byte of a waiting message has it sent again; a query behind its end puts
      it back until it ends if it expects an answer, and lets it go if not. */
  lemma QueryEvent(w: World, id: int, pos: int, e: Entry<Message>)
    requires Inv(w, {}) && e in w.waiting && e.value.Key() == id
    ensures var w', m := Next(w, Query(id, pos)), e.value;
            && (pos < m.size ==> m.token in w'.sending && w'.sending[m.token] == m && w'.calls == w.calls)
            && (pos >= m.size && m.hasAnswer && TimeFree(w.waiting, m.endTime, id) ==> Entry(m.endTime, m) in w'.waiting)
            && (pos >= m.size && !(m.hasAnswer && TimeFree(w.waiting, m.endTime, id)) ==> m.token in w'.finished)
            && (forall x :: x in w.waiting && x.value.Key() != id ==> x in w'.waiting)
  {
    OnePerIdOf(w.waiting);
    QueryMeaning(w.waiting, id);
    var x :| x in w.waiting && x.value == Found(w.waiting, ById(id)).value;
    SameEntry(w.waiting, x, e);
    var rest := w.(waiting := Without(w.waiting, ById(id)));
    WithoutFacts(w.waiting, ById(id));
    if pos >= e.value.size && e.value.hasAnswer {
      EnterEvent(rest, e.value.endTime, e.value);
    }
  }

  /** A query for an id that nobody waits with changes nothing. */
  lemma UnknownQuery(w: World, id: int, pos: int)
    requires Inv(w, {}) && forall e :: e in w.waiting ==> e.value.Key() != id
    ensures Next(w, Query(id, pos)) == w
  {
    OnePerIdOf(w.waiting);
    QueryMeaning(w.waiting, id);
  }

  // ---------- expiry ----------

  /** One of the entries that are due ends now and has a timeout handler. */
  ghost predicate TimesOut(due: Waiting, now: int, t: nat) {
    exists e :: e in due && e.value.token == t && e.value.endTime <= now && e.value.hasTimeout
  }

  ghost predicate Ends(due: Waiting, now: int, t: nat) {
    exists e :: e in due && e.value.token == t && e.value.endTime <= now
  }

  /** Entries that are due, one after the other. */
  lemma {:induction false} ExpireAllMeaning(w: World, due: Waiting, now: int, t: nat)
    requires Unique(due)
    ensures var w' := ExpireAll(w, due, now);
            && w'.waiting == w.waiting && w'.submitted == w.submitted
            && (TimedOut(t) in w'.calls <==> TimedOut(t) in w.calls || TimesOut(due, now, t))
            && (Answered(t) in w'.calls <==> Answered(t) in w.calls)
            && (t in w'.finished <==> t in w.finished || Ends(due, now, t))
            && (forall e :: e in due && e.value.token == t && e.value.endTime > now ==>
                  t in w'.sending && w'.sending[t] == e.value)
            && (!Listed(due, t) ==> (t in w'.sending <==> t in w.sending)
                                    && (t in w.sending ==> w'.sending[t] == w.sending[t]))
    decreases |due|
  {
    if due != [] {
      var m, tail := due[0].value, due[1..];
      var w1 := ExpireOne(w, m, now);
      ExpireAllMeaning(w1, tail, now, t);
      if m.endTime <= now {
        EndingHas(w.calls, m, if m.hasTimeout then WithTimeout else Silently, t);
      }
      HeadOrTail(due, now, t);
    }
  }

  lemma HeadOrTail(due: Waiting, now: int, t: nat)
    requires Unique(due) && due != []
    ensures var m, tail := due[0].value, due[1..];
            && (TimesOut(due, now, t) <==> (m.token == t && m.endTime <= now && m.hasTimeout) || TimesOut(tail, now, t))
            && (Ends(due, now, t) <==> (m.token == t && m.endTime <= now) || Ends(tail, now, t))
            && (Listed(due, t) <==> m.token == t || Listed(tail, t))
            && (m.token == t ==> !Listed(tail, t)) && Unique(tail)
  {
    var m, tail := due[0].value, due[1..];
    assert due == [due[0]] + tail;
    assert due[0] in due && forall e :: e in tail ==> e in due;
  }

  /** Processing the list: an entry that is not due within 20 ms stays; a due one is sent
      again if its end has not come, and otherwise ends, running its timeout handler if it
      has one.  No other callback for an answer or a timeout runs. */
  lemma ExpireEvent(w: World, taken: int, now: int, e: Entry<Message>)
    requires Unique(w.waiting) && Ascending(w.waiting) && e in w.waiting
    ensures var w', t := Next(w, Expire(taken, now)), e.value.token;
            && (Answered(t) in w'.calls <==> Answered(t) in w.calls)
            && (TimedOut(t) in w'.calls <==>
                TimedOut(t) in w.calls || (e.time <= taken + 20 && e.value.endTime <= now && e.value.hasTimeout))
            && (e.time > taken + 20 ==> e in w'.waiting)
            && (e.time <= taken + 20 && e.value.endTime > now ==> t in w'.sending && w'.sending[t] == e.value)
            && (e.time <= taken + 20 && e.value.endTime <= now ==> t in w'.finished)
  {
    var k := Due(w.waiting, taken + 20);
    DueSplits(w.waiting, taken + 20, e);
    DueEntry(w.waiting, k, now, e);
    var w' := ExpireDue(w.(waiting := w.waiting[k..]), w.waiting[..k], now, e);
  }

  lemma ExpireDue(w: World, due: Waiting, now: int, e: Entry<Message>) returns (w': World)
    requires Unique(due)
    requires TimesOut(due, now, e.value.token) <==> e in due && e.value.endTime <= now && e.value.hasTimeout
    requires Ends(due, now, e.value.token) <==> e in due && e.value.endTime <= now
    ensures w' == ExpireAll(w, due, now) && w'.waiting == w.waiting
    ensures var t := e.value.token;
            && (Answered(t) in w'.calls <==> Answered(t) in w.calls)
            && (TimedOut(t) in w'.calls <==>
                TimedOut(t) in w.calls || (e in due && e.value.endTime <= now && e.value.hasTimeout))
            && (e in due && e.value.endTime > now ==> t in w'.sending && w'.sending[t] == e.value)
            && (e in due && e.value.endTime <= now ==> t in w'.finished)
  {
    ExpireAllMeaning(w, due, now, e.value.token);
    w' := ExpireAll(w, due, now);
  }

  lemma DueEntry(w: Waiting, k: nat, now: int, e: Entry<Message>)
    requires Unique(w) && k <= |w| && e in w
    ensures var due, t := w[..k], e.value.token;
            && Unique(due)
            && (TimesOut(due, now, t) <==> e in due && e.value.endTime <= now && e.value.hasTimeout)
            && (Ends(due, now, t) <==> e in due && e.value.endTime <= now)
  {
    var due := w[..k];
    forall x | x in due && x.value.token == e.value.token
      ensures x == e
    {
      SameEntry(w, x, e);
    }
  }

  // ---------- which callbacks run, in every run ----------

  /** The event is an answer that this message waits for, and it has an answer handler. */
  ghost predicate RunsAnswer(w: World, ev: Event, t: nat) {
    ev.Answer? && Awaits(w, t, ev.id, ev.cmd) && t in w.submitted && w.submitted[t].hasAnswer
  }

  /** The list is processed, this message is due and at its end, and it has a timeout handler. */
  ghost predicate RunsTimeout(w: World, ev: Event, t: nat) {
    ev.Expire? && exists e :: e in w.waiting && e.value.token == t && e.time <= ev.taken + 20
                              && e.value.endTime <= ev.now && e.value.hasTimeout
  }

  lemma SilentEnd(w: World, m: Message, t: nat)
    ensures Answered(t) in Finish(w, m, Silently).calls <==> Answered(t) in w.calls
    ensures TimedOut(t) in Finish(w, m, Silently).calls <==> TimedOut(t) in w.calls
  {
    EndingHas(w.calls, m, Silently, t);
  }

  lemma ExpireCalls(w: World, taken: int, now: int, t: nat)
    requires Unique(w.waiting) && Ascending(w.waiting)
    ensures var w' := Next(w, Expire(taken, now));
            && (Answered(t) in w'.calls <==> Answered(t) in w.calls)
            && (TimedOut(t) in w'.calls <==> TimedOut(t) in w.calls || RunsTimeout(w, Expire(taken, now), t))
  {
    var k := Due(w.waiting, taken + 20);
    DueTimesOut(w, taken, now, t);
    ExpireAllMeaning(w.(waiting := w.waiting[k..]), w.waiting[..k], now, t);
  }

  lemma DueTimesOut(w: World, taken: int, now: int, t: nat)
    requires Unique(w.waiting) && Ascending(w.waiting)
    ensures var due := w.waiting[..Due(w.waiting, taken + 20)];
            Unique(due) && (TimesOut(due, now, t) <==> RunsTimeout(w, Expire(taken, now), t))
  {
    forall e | e in w.waiting
      ensures e in w.waiting[..Due(w.waiting, taken + 20)] <==> e.time <= taken + 20
    {
      DueSplits(w.waiting, taken + 20, e);
    }
  }

  lemma QueryCalls(w: World, id: int, pos: int, t: nat)
    ensures var w' := Next(w, Query(id, pos));
            && (Answered(t) in w'.calls <==> Answered(t) in w.calls)
            && (TimedOut(t) in w'.calls <==> TimedOut(t) in w.calls)
  {
    var found, rest := Found(w.waiting, ById(id)), w.(waiting := Without(w.waiting, ById(id)));
    if found.Some? {
      SilentEnd(rest, found.value, t);
      EnterCalls(rest, found.value.endTime, found.value);
    }
  }

  lemma PrepareCalls(w: World, token: nat, id: int, fragmented: bool, now: int, t: nat)
    ensures var w' := Next(w, Prepare(token, id, fragmented, now));
            && (Answered(t) in w'.calls <==> Answered(t) in w.calls)
            && (TimedOut(t) in w'.calls <==> TimedOut(t) in w.calls)
  {
    if token in w.sending {
      var m, rest := Prepared(w.sending[token], id, fragmented, now), w.(sending := w.sending - {token});
      SilentEnd(rest, m, t);
      EnterCalls(rest, WaitUntil(m, now), m);
    }
  }

  lemma StepCalls(w: World, ev: Event, t: nat)
    requires Inv(w, {})
    ensures Answered(t) in Next(w, ev).calls <==> Answered(t) in w.calls || RunsAnswer(w, ev, t)
    ensures TimedOut(t) in Next(w, ev).calls <==> TimedOut(t) in w.calls || RunsTimeout(w, ev, t)
  {
    match ev
    case Submit(m) =>
    case Drop(token) =>
      if token in w.sending {
        SilentEnd(w.(sending := w.sending - {token}), w.sending[token], t);
      }
    case Prepare(token, id, fragmented, now) => PrepareCalls(w, token, id, fragmented, now, t);
    case Query(id, pos) => QueryCalls(w, id, pos, t);
    case Answer(id, cmd) => AnswerCalls(w, id, cmd, t);
    case Expire(taken, now) => ExpireCalls(w, taken, now, t);
  }

  lemma AnswerCalls(w: World, id: int, cmd: int, t: nat)
    requires Inv(w, {})
    ensures var w' := Next(w, Answer(id, cmd));
            && (Answered(t) in w'.calls <==> Answered(t) in w.calls || RunsAnswer(w, Answer(id, cmd), t))
            && (TimedOut(t) in w'.calls <==> TimedOut(t) in w.calls)
  {
    if t in w.submitted {
      AnswerEvent(w, id, cmd, t);
    } else {
      var found := Found(w.waiting, ByAnswer(id, cmd));
      if found.Some? {
        AwaitsFound(w, id, cmd, found.value, t);
        EndingHas(w.calls, found.value, if found.value.hasAnswer then WithAnswer else Silently, t);
      }
    }
  }

  /** Some event of the run was an answer that the message then waited for. */
  ghost predicate AnswerCame(evs: seq<Event>, t: nat)
    decreases |evs|
  {
    evs != [] && var init, last := evs[..|evs| - 1], evs[|evs| - 1];
                 AnswerCame(init, t) || RunsAnswer(Run(START, init), last, t)
  }

  /** Some event of the run found the message due and at its end. */
  ghost predicate TimeRanOut(evs: seq<Event>, t: nat)
    decreases |evs|
  {
    evs != [] && var init, last := evs[..|evs| - 1], evs[|evs| - 1];
                 TimeRanOut(init, t) || RunsTimeout(Run(START, init), last, t)
  }

  /** In every run the answer handler of a message has run if and only if an answer with its
      id and its command came while it was waiting, and its timeout handler if and only if
      the list was processed when it was due and at its end. */
  lemma {:induction false} CallbacksExactly(evs: seq<Event>, t: nat)
    ensures Answered(t) in Run(START, evs).calls <==> AnswerCame(evs, t)
    ensures TimedOut(t) in Run(START, evs).calls <==> TimeRanOut(evs, t)
    decreases |evs|
  {
    if evs != [] {
      var init := evs[..|evs| - 1];
      CallbacksExactly(init, t);
      RunKeeps(init);
      StepCalls(Run(START, init), evs[|evs| - 1], t);
    }
  }
}

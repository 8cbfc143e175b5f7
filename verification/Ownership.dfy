/** Runs of the waiting list: who holds a message, and which of its callbacks run.

A message is held by the writer that is about to send it, by the waiting list, or by
nobody any more; between two of these it is in transit inside one locked step.  When
it is let go its `finally` callback runs.
 */
module Ownership {
  import opened Options
  import opened TimeMap
  import opened WaitingList

  datatype Callback = Answered(token: nat) | TimedOut(token: nat) | Finally(token: nat, ok: bool)

  /** `submitted` is every message as it was handed over; `sending` is held by the writer;
      `finished` has been let go. */
  datatype World = World(
    submitted: map<nat, Message>, sending: map<nat, Message>, waiting: Waiting,
    finished: set<nat>, calls: seq<Callback>)

  datatype Event =
    | Submit(m: Message)                                       // a new message is sent
    | Drop(token: nat)                                         // the writer is gone
    | Prepare(token: nat, id: int, fragmented: bool, now: int) // its packet is built
    | Answer(id: int, cmd: int)                                // an answer arrives
    | Query(id: int, pos: int)                                 // a fragment query arrives
    | Expire(taken: int, now: int)                             // entries are taken out, then processed

  /** How a message ends. */
  datatype Ending = Silently | WithAnswer | WithTimeout

  function EndingCalls(m: Message, how: Ending): seq<Callback> {
    (match how
     case Silently => []
     case WithAnswer => [Answered(m.token)]
     case WithTimeout => [TimedOut(m.token)]) +
    if m.hasFinally then [Finally(m.token, how == WithAnswer || !m.hasAnswer)] else []
  }

  function Finish(w: World, m: Message, how: Ending): World {
    w.(finished := w.finished + {m.token}, calls := w.calls + EndingCalls(m, how))
  }

  function FinishFound(w: World, found: Option<Message>): World {
    if found.Some? then Finish(w, found.value, Silently) else w
  }

  function Send(w: World, m: Message): World {
    w.(sending := w.sending[m.token := m])
  }

  /** A message enters the list; the entry it replaces is let go, and so is the message
      itself if its time is taken. */
  function EnterList(w: World, time: int, m: Message): World {
    var key := ById(m.Key());
    var w' := FinishFound(w.(waiting := Without(w.waiting, key)), Found(w.waiting, key));
    if HasTime(w'.waiting, time) then Finish(w', m, Silently)
    else w'.(waiting := Emplace(w'.waiting, Entry(time, m)))
  }

  /** The list changes as `add_to_waiting` changes it. */
  lemma EnterListIsEnlist(w: World, time: int, m: Message)
    requires Ascending(w.waiting)
    ensures EnterList(w, time, m).waiting == Enlist(w.waiting, time, m)
  {
    WithoutKeepsOrder(w.waiting, ById(m.Key()));
    EmplaceContents(Without(w.waiting, ById(m.Key())), Entry(time, m));
  }

  function Prepared(m: Message, id: int, fragmented: bool, now: int): Message {
    m.(id := if m.id.Some? then m.id else Some(id),
       endTime := if fragmented then now + FRAGMENT_LIFETIME else m.endTime)
  }

  /** When a message in the list is looked at again. */
  function WaitUntil(m: Message, now: int): int {
    if m.resendTimeout < m.endTime - now then now + m.resendTimeout else m.endTime
  }

  /** The list looks at a message again at its resend time or at its end, whichever is first. */
  lemma WaitUntilIsFirst(m: Message, now: int)
    ensures WaitUntil(m, now) <= m.endTime && WaitUntil(m, now) <= now + m.resendTimeout
    ensures WaitUntil(m, now) == m.endTime || WaitUntil(m, now) == now + m.resendTimeout
  {
  }

  function ExpireOne(w: World, m: Message, now: int): World {
    if m.endTime > now then Send(w, m)
    else Finish(w, m, if m.hasTimeout then WithTimeout else Silently)
  }

  function ExpireAll(w: World, due: Waiting, now: int): World
    decreases |due|
  {
    if due == [] then w else ExpireAll(ExpireOne(w, due[0].value, now), due[1..], now)
  }

  function Next(w: World, ev: Event): World {
    match ev
    case Submit(m) =>
      if m.token in w.submitted then w
      else Send(w.(submitted := w.submitted[m.token := m]), m)
    case Drop(token) =>
      if token !in w.sending then w
      else Finish(w.(sending := w.sending - {token}), w.sending[token], Silently)
    case Prepare(token, id, fragmented, now) =>
      if token !in w.sending then w
      else
        var m := Prepared(w.sending[token], id, fragmented, now);
        var w' := w.(sending := w.sending - {token});
        if m.endTime > now then EnterList(w', WaitUntil(m, now), m) else Finish(w', m, Silently)
    case Answer(id, cmd) =>
      var found := Found(w.waiting, ByAnswer(id, cmd));
      var w' := w.(waiting := Without(w.waiting, ByAnswer(id, cmd)));
      if found.None? then w
      else Finish(w', found.value, if found.value.hasAnswer then WithAnswer else Silently)
    case Query(id, pos) =>
      var found := Found(w.waiting, ById(id));
      var w' := w.(waiting := Without(w.waiting, ById(id)));
      if found.None? then w
      else if pos < found.value.size then Send(w', found.value)
      else if found.value.hasAnswer then EnterList(w', found.value.endTime, found.value)
      else Finish(w', found.value, Silently)
    case Expire(taken, now) =>
      var k := Due(w.waiting, taken + ACCURACY);
      ExpireAll(w.(waiting := w.waiting[k..]), w.waiting[..k], now)
  }

  // ---------- the list ----------

  /** No two entries share a message or an id. */
  ghost predicate Unique(w: Waiting) {
    forall i, j :: 0 <= i < j < |w| ==>
      w[i].value.token != w[j].value.token && w[i].value.Key() != w[j].value.Key()
  }

  ghost predicate Listed(w: Waiting, token: nat) {
    exists e :: e in w && e.value.token == token
  }

  ghost predicate Apart(x: Message, y: Message) {
    x.token != y.token && x.Key() != y.Key()
  }

  lemma RemoveAt(w: Waiting, i: nat)
    requires Unique(w) && Ascending(w) && i < |w|
    ensures var r := w[..i] + w[i + 1..]; Unique(r) && Ascending(r)
  {
    var r := w[..i] + w[i + 1..];
    forall a, b | 0 <= a < b < |r|
      ensures Apart(r[a].value, r[b].value) && r[a].time < r[b].time
    {
      var a', b' := if a < i then a else a + 1, if b < i then b else b + 1;
      assert r[a] == w[a'] && r[b] == w[b'];
    }
  }

  lemma RemoveMembers(w: Waiting, i: nat)
    requires Unique(w) && i < |w|
    ensures var r := w[..i] + w[i + 1..];
            forall e :: e in r <==> e in w && e.value.token != w[i].value.token
  {
    var r := w[..i] + w[i + 1..];
    forall e
      ensures e in r <==> e in w && e.value.token != w[i].value.token
    {
      if e in r {
        var a :| 0 <= a < |r| && r[a] == e;
        var a' := if a < i then a else a + 1;
        assert w[a'] == e;
      }
      if e in w && e.value.token != w[i].value.token {
        var a :| 0 <= a < |w| && w[a] == e;
        assert r[if a < i then a else a - 1] == e;
      }
    }
  }

  /** Taking an entry out: what is found, and what is left. */
  lemma WithoutFacts(w: Waiting, c: Check)
    requires Unique(w) && Ascending(w)
    ensures Unique(Without(w, c)) && Ascending(Without(w, c))
    ensures match Found(w, c)
            case None => Without(w, c) == w && forall e :: e in w ==> !Matches(c, e.value)
            case Some(m) =>
              && Matches(c, m) && (exists e :: e in w && e.value == m)
              && forall e :: e in Without(w, c) <==> e in w && e.value.token != m.token
  {
    var i := Find(w, c);
    if i < |w| {
      assert w[i] in w;
      RemoveAt(w, i);
      RemoveMembers(w, i);
    }
  }

  lemma UniqueCons(x: Entry<Message>, r: Waiting)
    requires Unique(r) && forall y :: y in r ==> Apart(x.value, y.value)
    ensures Unique([x] + r)
  {
    var s := [x] + r;
    forall a, b | 0 <= a < b < |s|
      ensures Apart(s[a].value, s[b].value)
    {
      assert s[b] == r[b - 1] && r[b - 1] in r;
      if a > 0 {
        assert s[a] == r[a - 1];
      }
    }
  }

  lemma EmplaceMembers(w: Waiting, e: Entry<Message>)
    requires Ascending(w) && !HasTime(w, e.time)
    ensures forall x :: x in Emplace(w, e) <==> x in w || x == e
  {
    EmplaceContents(w, e);
    var r := Emplace(w, e);
    forall x
      ensures x in r <==> x in w || x == e
    {
      assert x in r <==> x in multiset(r);
      assert x in w <==> x in multiset(w);
    }
  }

  lemma {:induction false} EmplaceUnique(w: Waiting, e: Entry<Message>)
    requires Unique(w) && Ascending(w) && !HasTime(w, e.time)
    requires forall x :: x in w ==> Apart(x.value, e.value)
    ensures Unique(Emplace(w, e))
  {
    if w == [] || e.time < w[0].time {
      UniqueCons(e, w);
    } else {
      assert w[0].time != e.time && w[0] in w;
      HasTimeTail(w, e.time);
      EmplaceUnique(w[1..], e);
      EmplaceMembers(w[1..], e);
      UniqueCons(w[0], Emplace(w[1..], e));
    }
  }

  // ---------- the invariant ----------

  /** The message is the submitted one: its answer handler has not been used. */
  ghost predicate Fits(w: World, m: Message) {
    m.token in w.submitted && m.hasAnswer == w.submitted[m.token].hasAnswer
    && m.hasFinally == w.submitted[m.token].hasFinally
  }

  /** Every submitted message has exactly one holder; `transit` is inside a step. */
  ghost predicate OneHolder(w: World, transit: set<nat>) {
    Separate(w, transit) && AllHeld(w, transit)
  }

  /** Every submitted message is somewhere ... */
  ghost predicate AllHeld(w: World, transit: set<nat>) {
    forall t :: t in w.submitted ==> t in w.sending || t in w.finished || t in transit || Listed(w.waiting, t)
  }

  /** ... and nowhere twice. */
  ghost predicate Separate(w: World, transit: set<nat>) {
    && (forall t :: t in w.sending ==>
          w.sending[t].token == t && Fits(w, w.sending[t]) && t !in w.finished && t !in transit)
    && (forall e :: e in w.waiting ==>
          && Fits(w, e.value) && e.value.id.Some?
          && e.value.token !in w.sending && e.value.token !in w.finished && e.value.token !in transit)
    && Unique(w.waiting) && Ascending(w.waiting)
    && w.finished !! transit && transit + w.finished <= w.submitted.Keys
  }

  /** Callbacks run only when a message is let go, each kind at most once; `finally` says
      whether the answer handler ran or there was none. */
  ghost predicate CallsOk(calls: seq<Callback>, finished: set<nat>, submitted: map<nat, Message>) {
    && (forall i :: 0 <= i < |calls| ==> calls[i].token in finished)
    && (forall i, j :: 0 <= i < j < |calls| && calls[i].Finally? == calls[j].Finally? ==>
          calls[i].token != calls[j].token)
    && (forall i :: 0 <= i < |calls| && calls[i].Finally? && calls[i].token in submitted ==>
          (calls[i].ok <==> !submitted[calls[i].token].hasAnswer || Answered(calls[i].token) in calls))
    && (forall t :: t in finished && t in submitted && submitted[t].hasFinally ==> FinallyRan(calls, t))
  }

  ghost predicate FinallyRan(calls: seq<Callback>, t: nat) {
    exists i :: 0 <= i < |calls| && calls[i].Finally? && calls[i].token == t
  }

  ghost predicate Inv(w: World, transit: set<nat>) {
    OneHolder(w, transit) && CallsOk(w.calls, w.finished, w.submitted)
  }

  lemma FinishCalls(calls: seq<Callback>, finished: set<nat>, submitted: map<nat, Message>, m: Message, how: Ending)
    requires CallsOk(calls, finished, submitted) && m.token !in finished && m.token in submitted
    requires m.hasAnswer == submitted[m.token].hasAnswer && m.hasFinally == submitted[m.token].hasFinally
    requires how == WithAnswer ==> m.hasAnswer
    ensures CallsOk(calls + EndingCalls(m, how), finished + {m.token}, submitted)
  {
    var last, n := EndingCalls(m, how), |calls|;
    var all := calls + last;
    assert forall j :: 0 <= j < |last| ==> last[j].token == m.token;
    assert forall j :: 0 <= j < n ==> calls[j].token != m.token;
    forall i | 0 <= i < |all| && all[i].Finally? && all[i].token in submitted
      ensures all[i].ok <==> !submitted[all[i].token].hasAnswer || Answered(all[i].token) in all
    {
      var t := all[i].token;
      assert Answered(t) in all <==> Answered(t) in calls || Answered(t) in last;
      assert all[i] == if i < n then calls[i] else last[i - n];
    }
    forall t | t in finished + {m.token} && t in submitted && submitted[t].hasFinally
      ensures FinallyRan(all, t)
    {
      if t == m.token {
        assert all[|all| - 1].Finally?;
      } else {
        var i :| 0 <= i < n && calls[i].Finally? && calls[i].token == t;
        assert all[i] == calls[i];
      }
    }
  }

  lemma FinishKeeps(w: World, transit: set<nat>, m: Message, how: Ending)
    requires Inv(w, transit) && m.token in transit && Fits(w, m)
    requires how == WithAnswer ==> m.hasAnswer
    ensures Inv(Finish(w, m, how), transit - {m.token})
  {
    FinishCalls(w.calls, w.finished, w.submitted, m, how);
  }

  lemma SendKeeps(w: World, transit: set<nat>, m: Message)
    requires Inv(w, transit) && m.token in transit && Fits(w, m)
    ensures Inv(Send(w, m), transit - {m.token})
  {
  }

  lemma TakeSending(w: World, transit: set<nat>, t: nat)
    requires Inv(w, transit) && t in w.sending
    ensures Inv(w.(sending := w.sending - {t}), transit + {t})
  {
  }

  lemma TakeWaiting(w: World, transit: set<nat>, c: Check)
    requires Inv(w, transit)
    ensures match Found(w.waiting, c)
            case None => Inv(w.(waiting := Without(w.waiting, c)), transit)
            case Some(m) =>
              && Fits(w, m) && m.id.Some? && m.token !in transit
              && Inv(w.(waiting := Without(w.waiting, c)), transit + {m.token})
  {
    WithoutFacts(w.waiting, c);
    var w' := w.(waiting := Without(w.waiting, c));
    match Found(w.waiting, c)
    case None =>
    case Some(m) =>
      forall t | t in w.submitted && Listed(w.waiting, t) && t != m.token
        ensures Listed(w'.waiting, t)
      {
        var e :| e in w.waiting && e.value.token == t;
        assert e in w'.waiting;
      }
  }

  lemma PlaceInList(w: Waiting, e: Entry<Message>)
    requires Unique(w) && Ascending(w) && !HasTime(w, e.time)
    requires forall x :: x in w ==> Apart(x.value, e.value)
    ensures Unique(Emplace(w, e)) && Ascending(Emplace(w, e))
    ensures forall x :: x in Emplace(w, e) <==> x in w || x == e
    ensures forall t :: Listed(w, t) || t == e.value.token ==> Listed(Emplace(w, e), t)
  {
    EmplaceKeepsOrder(w, e);
    EmplaceUnique(w, e);
    EmplaceMembers(w, e);
    var r := Emplace(w, e);
    assert e in r;
    forall t | Listed(w, t)
      ensures Listed(r, t)
    {
      var x :| x in w && x.value.token == t;
      assert x in r;
    }
  }

  lemma PlaceKeeps(w: World, transit: set<nat>, time: int, m: Message)
    requires Inv(w, transit) && m.token in transit && Fits(w, m) && m.id.Some?
    requires !HasTime(w.waiting, time) && forall e :: e in w.waiting ==> e.value.Key() != m.Key()
    ensures Inv(w.(waiting := Emplace(w.waiting, Entry(time, m))), transit - {m.token})
  {
    PlaceInList(w.waiting, Entry(time, m));
    PlacedKeeps(w, transit, Entry(time, m), Emplace(w.waiting, Entry(time, m)));
  }

  lemma PlacedKeeps(w: World, transit: set<nat>, e: Entry<Message>, r: Waiting)
    requires Inv(w, transit) && e.value.token in transit && Fits(w, e.value) && e.value.id.Some?
    requires Unique(r) && Ascending(r) && forall x :: x in r <==> x in w.waiting || x == e
    requires forall t :: Listed(w.waiting, t) || t == e.value.token ==> Listed(r, t)
    ensures Inv(w.(waiting := r), transit - {e.value.token})
  {
  }

  lemma EnterKeeps(w: World, transit: set<nat>, time: int, m: Message)
    requires Inv(w, transit) && m.token in transit && Fits(w, m) && m.id.Some?
    ensures Inv(EnterList(w, time, m), transit - {m.token})
  {
    var key := ById(m.Key());
    WithoutFacts(w.waiting, key);
    TakeWaiting(w, transit, key);
    var w1 := w.(waiting := Without(w.waiting, key));
    var found := Found(w.waiting, key);
    var w2 := FinishFound(w1, found);
    if found.Some? {
      FinishKeeps(w1, transit + {found.value.token}, found.value, Silently);
      assert transit + {found.value.token} - {found.value.token} == transit;
      assert forall e :: e in w2.waiting ==> e.value.Key() != m.Key() by {
        NoOtherKey(w.waiting, key, m);
      }
    }
    if HasTime(w2.waiting, time) {
      FinishKeeps(w2, transit, m, Silently);
    } else {
      PlaceKeeps(w2, transit, time, m);
    }
  }

  lemma NoOtherKey(w: Waiting, c: Check, m: Message)
    requires Unique(w) && Ascending(w) && c == ById(m.Key()) && Found(w, c).Some?
    ensures forall e :: e in Without(w, c) ==> e.value.Key() != m.Key()
  {
    WithoutFacts(w, c);
    var i := Find(w, c);
    forall e | e in Without(w, c)
      ensures e.value.Key() != m.Key()
    {
      var a :| 0 <= a < |w| && w[a] == e;
      assert a != i;
    }
  }

  ghost function Tokens(due: Waiting): set<nat> {
    set e | e in due :: e.value.token
  }

  lemma SplitOrder(w: Waiting, k: nat)
    requires Unique(w) && Ascending(w) && k <= |w|
    ensures Unique(w[..k]) && Unique(w[k..]) && Ascending(w[k..])
  {
  }

  lemma SplitTokens(w: Waiting, k: nat, e: Entry<Message>)
    requires Unique(w) && k <= |w| && e in w[k..]
    ensures e.value.token !in Tokens(w[..k])
  {
    var due, rest := w[..k], w[k..];
    var j :| 0 <= j < |rest| && rest[j] == e;
    forall x | x in due
      ensures x.value.token != e.value.token
    {
      var i :| 0 <= i < |due| && due[i] == x;
      assert Apart(w[i].value, w[k + j].value);
    }
  }

  lemma SplitList(w: Waiting, k: nat)
    requires Unique(w) && Ascending(w) && k <= |w|
    ensures Unique(w[..k]) && Unique(w[k..]) && Ascending(w[k..])
    ensures forall e :: e in w <==> e in w[..k] || e in w[k..]
    ensures forall e :: e in w[k..] ==> e.value.token !in Tokens(w[..k])
  {
    SplitOrder(w, k);
    assert w == w[..k] + w[k..];
    forall e | e in w[k..]
      ensures e.value.token !in Tokens(w[..k])
    {
      SplitTokens(w, k, e);
    }
  }

  /** The entries that are due leave the list together. */
  lemma TakeDue(w: World, k: nat)
    requires Inv(w, {}) && k <= |w.waiting|
    ensures Inv(w.(waiting := w.waiting[k..]), Tokens(w.waiting[..k]))
    ensures Unique(w.waiting[..k]) && forall e :: e in w.waiting[..k] ==> Fits(w, e.value)
  {
    SplitList(w.waiting, k);
    TakeDueHeld(w, k);
    TakeDueSeparate(w, k);
  }

  lemma TakeDueHeld(w: World, k: nat)
    requires AllHeld(w, {}) && Unique(w.waiting) && Ascending(w.waiting) && k <= |w.waiting|
    ensures AllHeld(w.(waiting := w.waiting[k..]), Tokens(w.waiting[..k]))
  {
    var due, rest := w.waiting[..k], w.waiting[k..];
    SplitList(w.waiting, k);
    forall t | Listed(w.waiting, t)
      ensures t in Tokens(due) || Listed(rest, t)
    {
      var e :| e in w.waiting && e.value.token == t;
      assert e in due || e in rest;
    }
  }

  lemma TakeDueSeparate(w: World, k: nat)
    requires Separate(w, {}) && k <= |w.waiting|
    ensures Separate(w.(waiting := w.waiting[k..]), Tokens(w.waiting[..k]))
  {
    SplitList(w.waiting, k);
    forall t | t in Tokens(w.waiting[..k])
      ensures t !in w.sending && t !in w.finished && t in w.submitted
    {
      var e :| e in w.waiting[..k] && e.value.token == t;
      assert e in w.waiting;
    }
  }

  lemma TokensTail(due: Waiting)
    requires due != [] && Unique(due)
    ensures due[0].value.token in Tokens(due)
    ensures Tokens(due) - {due[0].value.token} == Tokens(due[1..])
    ensures Unique(due[1..]) && forall e :: e in due[1..] ==> e in due
  {
    var tail := due[1..];
    assert due == [due[0]] + tail && due[0] in due;
    forall e | e in tail
      ensures e.value.token != due[0].value.token
    {
      var i :| 0 <= i < |tail| && tail[i] == e;
      assert due[i + 1] == e;
    }
  }

  lemma ExpireOneKeeps(w: World, transit: set<nat>, m: Message, now: int)
    requires Inv(w, transit) && m.token in transit && Fits(w, m)
    ensures Inv(ExpireOne(w, m, now), transit - {m.token})
    ensures ExpireOne(w, m, now).submitted == w.submitted
  {
    if m.endTime > now {
      SendKeeps(w, transit, m);
    } else {
      FinishKeeps(w, transit, m, if m.hasTimeout then WithTimeout else Silently);
    }
  }

  lemma {:induction false} ExpireKeeps(w: World, due: Waiting, now: int)
    requires Inv(w, Tokens(due)) && Unique(due) && forall e :: e in due ==> Fits(w, e.value)
    ensures Inv(ExpireAll(w, due, now), {})
    decreases |due|
  {
    if due == [] {
      assert Tokens(due) == {};
    } else {
      var m := due[0].value;
      assert due[0] in due;
      TokensTail(due);
      ExpireOneKeeps(w, Tokens(due), m, now);
      var w' := ExpireOne(w, m, now);
      assert forall e :: e in due[1..] ==> Fits(w', e.value);
      ExpireKeeps(w', due[1..], now);
    }
  }

  lemma RegisterKeeps(w: World, m: Message)
    requires Inv(w, {}) && m.token !in w.submitted
    ensures Inv(w.(submitted := w.submitted[m.token := m]), {m.token})
  {
    RegisterCalls(w.calls, w.finished, w.submitted, m);
  }

  lemma RegisterCalls(calls: seq<Callback>, finished: set<nat>, submitted: map<nat, Message>, m: Message)
    requires CallsOk(calls, finished, submitted) && finished <= submitted.Keys && m.token !in submitted
    ensures CallsOk(calls, finished, submitted[m.token := m])
  {
    assert forall i :: 0 <= i < |calls| ==> calls[i].token != m.token;
  }

  lemma SubmitKeeps(w: World, m: Message)
    requires Inv(w, {})
    ensures Inv(Next(w, Submit(m)), {})
  {
    if m.token !in w.submitted {
      RegisterKeeps(w, m);
      SendKeeps(w.(submitted := w.submitted[m.token := m]), {m.token}, m);
      assert {m.token} - {m.token} == {};
    }
  }

  lemma DropKeeps(w: World, token: nat)
    requires Inv(w, {})
    ensures Inv(Next(w, Drop(token)), {})
  {
    if token in w.sending {
      TakeSending(w, {}, token);
      FinishDone(w.(sending := w.sending - {token}), w.sending[token], Silently);
    }
  }

  lemma ExpireEventKeeps(w: World, taken: int, now: int) returns (w': World)
    requires Inv(w, {})
    ensures w' == Next(w, Expire(taken, now)) && Inv(w', {})
  {
    w' := ExpireFront(w, Due(w.waiting, taken + ACCURACY), now);
  }

  lemma ExpireFront(w: World, k: nat, now: int) returns (w': World)
    requires Inv(w, {}) && k <= |w.waiting|
    ensures Inv(w', {}) && w' == ExpireAll(w.(waiting := w.waiting[k..]), w.waiting[..k], now)
  {
    TakeDue(w, k);
    var rest, due := w.(waiting := w.waiting[k..]), w.waiting[..k];
    assert forall e :: e in due ==> Fits(rest, e.value);
    ExpireKeeps(rest, due, now);
    w' := ExpireAll(rest, due, now);
  }

  lemma TransitDone(w: World, t: nat)
    requires Inv(w, {} + {t} - {t})
    ensures Inv(w, {})
  {
    assert {} + {t} - {t} == {};
  }

  lemma FinishDone(w: World, m: Message, how: Ending)
    requires Inv(w, {} + {m.token}) && Fits(w, m) && (how == WithAnswer ==> m.hasAnswer)
    ensures Inv(Finish(w, m, how), {})
  {
    FinishKeeps(w, {} + {m.token}, m, how);
    TransitDone(Finish(w, m, how), m.token);
  }

  lemma EnterDone(w: World, time: int, m: Message)
    requires Inv(w, {} + {m.token}) && Fits(w, m) && m.id.Some?
    ensures Inv(EnterList(w, time, m), {})
  {
    EnterKeeps(w, {} + {m.token}, time, m);
    TransitDone(EnterList(w, time, m), m.token);
  }

  lemma PrepareKeeps(w: World, token: nat, id: int, fragmented: bool, now: int)
    requires Inv(w, {})
    ensures Inv(Next(w, Prepare(token, id, fragmented, now)), {})
  {
    if token in w.sending {
      TakeSending(w, {}, token);
      var m := Prepared(w.sending[token], id, fragmented, now);
      var w' := w.(sending := w.sending - {token});
      if m.endTime > now {
        EnterDone(w', WaitUntil(m, now), m);
      } else {
        FinishDone(w', m, Silently);
      }
    }
  }

  lemma AnswerKeeps(w: World, id: int, cmd: int) returns (w': World)
    requires Inv(w, {})
    ensures w' == Next(w, Answer(id, cmd)) && Inv(w', {})
  {
    w' := AnswerTaken(w, ByAnswer(id, cmd));
  }

  lemma AnswerTaken(w: World, c: Check) returns (w': World)
    requires Inv(w, {})
    ensures Inv(w', {})
    ensures var found := Found(w.waiting, c);
            w' == if found.None? then w
                  else Finish(w.(waiting := Without(w.waiting, c)), found.value,
                              if found.value.hasAnswer then WithAnswer else Silently)
  {
    TakeWaiting(w, {}, c);
    w' := w;
    if Found(w.waiting, c).Some? {
      var m := Found(w.waiting, c).value;
      var how := if m.hasAnswer then WithAnswer else Silently;
      w' := Finish(w.(waiting := Without(w.waiting, c)), m, how);
      FinishDone(w.(waiting := Without(w.waiting, c)), m, how);
    }
  }

  lemma QueryKeeps(w: World, id: int, pos: int) returns (w': World)
    requires Inv(w, {})
    ensures w' == Next(w, Query(id, pos)) && Inv(w', {})
  {
    w' := w;
    var found := Found(w.waiting, ById(id));
    if found.Some? {
      w' := QueryTaken(w, ById(id), found.value, pos);
    }
  }

  lemma QueryTaken(w: World, c: Check, m: Message, pos: int) returns (w': World)
    requires Inv(w, {}) && Found(w.waiting, c) == Some(m)
    ensures Inv(w', {})
    ensures var rest := w.(waiting := Without(w.waiting, c));
            w' == if pos < m.size then Send(rest, m)
                  else if m.hasAnswer then EnterList(rest, m.endTime, m)
                  else Finish(rest, m, Silently)
  {
    TakeWaiting(w, {}, c);
    var rest := w.(waiting := Without(w.waiting, c));
    if pos < m.size {
      SendKeeps(rest, {} + {m.token}, m);
      w' := Send(rest, m);
      TransitDone(w', m.token);
    } else if m.hasAnswer {
      EnterDone(rest, m.endTime, m);
      w' := EnterList(rest, m.endTime, m);
    } else {
      FinishDone(rest, m, Silently);
      w' := Finish(rest, m, Silently);
    }
  }

  lemma NextKeeps(w: World, ev: Event)
    requires Inv(w, {})
    ensures Inv(Next(w, ev), {})
  {
    match ev
    case Submit(m) => SubmitKeeps(w, m);
    case Drop(token) => DropKeeps(w, token);
    case Prepare(token, id, fragmented, now) => PrepareKeeps(w, token, id, fragmented, now);
    case Answer(id, cmd) => var w' := AnswerKeeps(w, id, cmd);
    case Query(id, pos) => var w' := QueryKeeps(w, id, pos);
    case Expire(taken, now) => var w' := ExpireEventKeeps(w, taken, now);
  }

  function Run(w: World, evs: seq<Event>): World
    decreases |evs|
  {
    if evs == [] then w else Next(Run(w, evs[..|evs| - 1]), evs[|evs| - 1])
  }

  const START := World(map[], map[], [], {}, [])

  lemma {:induction false} RunKeeps(evs: seq<Event>)
    ensures Inv(Run(START, evs), {})
    decreases |evs|
  {
    if evs != [] {
      RunKeeps(evs[..|evs| - 1]);
      NextKeeps(Run(START, evs[..|evs| - 1]), evs[|evs| - 1]);
    }
  }

  // ---------- what holds in every run ----------

  /** There is at most one entry per id in the list. */
  lemma OneEntryPerId(evs: seq<Event>, i: nat, j: nat)
    requires i < |Run(START, evs).waiting| && j < |Run(START, evs).waiting| && i != j
    ensures Run(START, evs).waiting[i].value.id != Run(START, evs).waiting[j].value.id
  {
    RunKeeps(evs);
    var w := Run(START, evs).waiting;
    assert w[i] in w && w[j] in w;
    assert Apart(w[if i < j then i else j].value, w[if i < j then j else i].value);
  }

  /** A submitted message is being sent, waiting or finished, and only one of these. */
  lemma ExactlyOneHolder(evs: seq<Event>, t: nat)
    requires t in Run(START, evs).submitted
    ensures var w := Run(START, evs);
            && (t in w.sending || Listed(w.waiting, t) || t in w.finished)
            && !(t in w.sending && Listed(w.waiting, t))
            && !(t in w.sending && t in w.finished)
            && !(Listed(w.waiting, t) && t in w.finished)
  {
    RunKeeps(evs);
  }

  /** The answer and the timeout callback of a message never both run, neither runs
      twice, nor does `finally`. */
  lemma CallbacksAtMostOnce(evs: seq<Event>, i: nat, j: nat)
    requires var calls := Run(START, evs).calls;
             i < j < |calls| && calls[i].token == calls[j].token
    ensures var calls := Run(START, evs).calls; calls[i].Finally? != calls[j].Finally?
  {
    RunKeeps(evs);
  }

  /** `finally` reports success exactly if the answer came or none was asked for, and no
      callback runs while the message is still being sent or waiting. */
  lemma FinallyReports(evs: seq<Event>, i: nat)
    requires i < |Run(START, evs).calls| && Run(START, evs).calls[i].Finally?
    ensures var w := Run(START, evs);
            var t := w.calls[i].token;
            && t in w.finished && t in w.submitted
            && (w.calls[i].ok <==> !w.submitted[t].hasAnswer || Answered(t) in w.calls)
  {
    RunKeeps(evs);
  }

  /** A message that was let go has had its `finally` callback run. */
  lemma FinallyRuns(evs: seq<Event>, t: nat)
    requires t in Run(START, evs).finished
    ensures var w := Run(START, evs);
            t in w.submitted && (w.submitted[t].hasFinally ==> FinallyRan(w.calls, t))
  {
    RunKeeps(evs);
  }
}

/** The timer thread: timers are added at any time; the thread waits, moves what is due
into a queue under the lock, and emits the queue outside it. */
module ProtocolTimer {
  import opened TimeMap

  const CLOSE := 10   // milliseconds a timer may be emitted early

  datatype Item = Item(endpoint: int, data: int)
  type Timer = Entry<Item>

  /** A timer that was emitted, and when. */
  datatype Emission = Emission(timer: Timer, at: int)

  datatype State = State(items: seq<Timer>, clients: seq<Timer>, newTimeout: bool)

  function Adding(st: State, t: Timer): State {
    st.(items := Emplace(st.items, t), newTimeout := true)
  }

  /** The locked part of a turn: `timeout` says the wait ended by time. */
  function Collecting(st: State, timeout: bool, now: int): State {
    var k := if timeout then Due(st.items, now + CLOSE) else 0;
    State(st.items[k..], st.clients + st.items[..k], false)
  }

  /** Moving the first due timer leaves the rest to be collected. */
  lemma CollectStep(st: State, now: int)
    requires st.items != [] && st.items[0].time <= now + CLOSE
    ensures Collecting(State(st.items[1..], st.clients + [st.items[0]], st.newTimeout), true, now) ==
            Collecting(st, true, now)
  {
    DueStep(st.items, now + CLOSE);
    var k := Due(st.items[1..], now + CLOSE);
    assert st.clients + [st.items[0]] + st.items[1..][..k] == st.clients + ([st.items[0]] + st.items[1..][..k]);
  }

  class Thread {
    var items: seq<Timer>
    var clients: seq<Timer>
    var newTimeoutFlag: bool
    var emitted: seq<Emission>

    function View(): State
      reads this
    {
      State(items, clients, newTimeoutFlag)
    }

    constructor ()
      ensures View() == State([], [], false) && emitted == []
    {
      items, clients, newTimeoutFlag, emitted := [], [], false, [];
    }

    method Add(time: int, item: Item)
      modifies this`items, this`newTimeoutFlag
      ensures View() == Adding(old(View()), Entry(time, item))
    {
      items := Emplace(items, Entry(time, item));
      newTimeoutFlag := true;
    }

    method Collect(timeout: bool, now: int)
      modifies this`items, this`clients, this`newTimeoutFlag
      ensures View() == Collecting(old(View()), timeout, now)
    {
      newTimeoutFlag := false;
      if timeout && items != [] {
        var expiresClose := now + CLOSE;
        ghost var target := Collecting(View(), true, now);
        while items != []
          invariant Collecting(View(), true, now) == target && !newTimeoutFlag
          decreases |items|
        {
          if expiresClose < items[0].time {
            break;
          }
          CollectStep(View(), now);
          clients := clients + [items[0]];
          items := items[1..];
        }
        assert items[..0] == [] && clients + [] == clients;
      } else {
        assert items[..0] == [] && clients + [] == clients;
      }
    }

    method EmitNext(now: int)
      requires clients != []
      modifies this`clients, this`emitted
      ensures clients == old(clients)[1..]
      ensures emitted == old(emitted) + [Emission(old(clients)[0], now)]
    {
      emitted := emitted + [Emission(clients[0], now)];
      clients := clients[1..];
    }
  }

  // ---------- every interleaving ----------

  datatype Event =
    | Add(timer: Timer)
    | Wake(timeout: bool, now: int)
    | Emit(now: int)

  datatype Log = Log(st: State, accepted: seq<Timer>, emitted: seq<Emission>, clock: int)

  /** Time does not run backwards; the thread wakes only with an empty queue. */
  predicate Enabled(l: Log, ev: Event) {
    match ev
    case Add(_) => true
    case Wake(timeout, now) => l.st.clients == [] && l.clock <= now && (timeout ==> l.st.items != [])
    case Emit(now) => l.st.clients != [] && l.clock <= now
  }

  function Next(l: Log, ev: Event): Log
    requires Enabled(l, ev)
  {
    match ev
    case Add(t) =>
      l.(st := Adding(l.st, t), accepted := if HasTime(l.st.items, t.time) then l.accepted else l.accepted + [t])
    case Wake(timeout, now) => l.(st := Collecting(l.st, timeout, now), clock := now)
    case Emit(now) =>
      l.(st := l.st.(clients := l.st.clients[1..]),
         emitted := l.emitted + [Emission(l.st.clients[0], now)], clock := now)
  }

  function Timers(emitted: seq<Emission>): multiset<Timer> {
    if emitted == [] then multiset{} else Timers(emitted[..|emitted| - 1]) + multiset{emitted[|emitted| - 1].timer}
  }

  ghost predicate Inv(l: Log) {
    && Ascending(l.st.items) && Ascending(l.st.clients)
    && AllBy(l.st.clients, l.clock + CLOSE)
    && (forall i :: 0 <= i < |l.emitted| ==> l.emitted[i].timer.time <= l.emitted[i].at + CLOSE)
    && multiset(l.accepted) == multiset(l.st.items) + multiset(l.st.clients) + Timers(l.emitted)
  }

  lemma SplitMultiset<T>(s: seq<T>, k: nat)
    requires k <= |s|
    ensures multiset(s) == multiset(s[..k]) + multiset(s[k..])
  {
    assert s == s[..k] + s[k..];
  }

  lemma AddKeepsInv(l: Log, t: Timer)
    requires Inv(l)
    ensures Inv(Next(l, Add(t)))
  {
    EmplaceKeepsOrder(l.st.items, t);
    EmplaceContents(l.st.items, t);
  }

  lemma WakeKeepsInv(l: Log, timeout: bool, now: int)
    requires Inv(l) && Enabled(l, Wake(timeout, now))
    ensures Inv(Next(l, Wake(timeout, now)))
  {
    var items, k := l.st.items, if timeout then Due(l.st.items, now + CLOSE) else 0;
    AscendingSlices(items, k);
    SplitMultiset(items, k);
    assert l.st.clients + items[..k] == items[..k];
  }

  /** A turn that ended by time leaves no timer pending that is due within 10 ms. */
  lemma CollectsAllDue(l: Log, now: int, t: Timer)
    requires Inv(l) && Enabled(l, Wake(true, now)) && t in l.st.items
    ensures var l' := Next(l, Wake(true, now));
            if t.time <= now + 10 then t in l'.st.clients && t !in l'.st.items
            else t in l'.st.items && t !in l'.st.clients
  {
    var items, k := l.st.items, Due(l.st.items, now + CLOSE);
    assert [] + items[..k] == items[..k];
    DueSplits(items, now + CLOSE, t);
  }

  lemma AscendingSlices<T>(m: seq<Entry<T>>, k: nat)
    requires Ascending(m) && k <= |m|
    ensures Ascending(m[..k]) && Ascending(m[k..])
  {
  }

  lemma EmitKeepsInv(l: Log, now: int)
    requires Inv(l) && Enabled(l, Emit(now))
    ensures Inv(Next(l, Emit(now)))
  {
    SplitMultiset(l.st.clients, 1);
    var l' := Next(l, Emit(now));
    assert l'.emitted[..|l'.emitted| - 1] == l.emitted;
    assert l.st.clients[..1] == [l.st.clients[0]];
  }

  lemma NextKeepsInv(l: Log, ev: Event)
    requires Inv(l) && Enabled(l, ev)
    ensures Inv(Next(l, ev))
  {
    match ev
    case Add(t) => AddKeepsInv(l, t);
    case Wake(timeout, now) => WakeKeepsInv(l, timeout, now);
    case Emit(now) => EmitKeepsInv(l, now);
  }

  ghost predicate IsRun(evs: seq<Event>, logs: seq<Log>) {
    && |logs| == |evs| + 1
    && forall i :: 0 <= i < |evs| ==> Enabled(logs[i], evs[i]) && logs[i + 1] == Next(logs[i], evs[i])
  }

  /** Timer safety: in every interleaving each accepted timer is pending, queued or
      emitted, and nowhere twice; no timer is emitted more than 10 ms early; and what is
      queued is in ascending order of time. */
  lemma {:induction false} TimerSafety(evs: seq<Event>, logs: seq<Log>, n: nat)
    requires IsRun(evs, logs) && n <= |evs| && logs[0] == Log(State([], [], false), [], [], 0)
    ensures var l := logs[n];
            && multiset(l.accepted) == multiset(l.st.items) + multiset(l.st.clients) + Timers(l.emitted)
            && (forall i :: 0 <= i < |l.emitted| ==> l.emitted[i].timer.time <= l.emitted[i].at + 10)
            && Ascending(l.st.clients) && Inv(l)
  {
    if n > 0 {
      TimerSafety(evs, logs, n - 1);
      NextKeepsInv(logs[n - 1], evs[n - 1]);
      assert logs[n - 1 + 1] == Next(logs[n - 1], evs[n - 1]);
    }
  }

  /** The flag that ends a wait is set exactly if a timer was added since the last wake-up. */
  lemma {:induction false} FlagMeansNews(evs: seq<Event>, logs: seq<Log>, n: nat)
    requires IsRun(evs, logs) && n <= |evs| && !logs[0].st.newTimeout
    ensures logs[n].st.newTimeout <==> AddedSinceWake(evs, n)
  {
    if n > 0 {
      FlagMeansNews(evs, logs, n - 1);
      assert logs[n - 1 + 1] == Next(logs[n - 1], evs[n - 1]);
    }
  }

  predicate AddedSinceWake(evs: seq<Event>, n: nat)
    requires n <= |evs|
  {
    n > 0 && (evs[n - 1].Add? || (!evs[n - 1].Wake? && AddedSinceWake(evs, n - 1)))
  }

  lemma TimersIn(emitted: seq<Emission>, i: nat)
    requires i < |emitted|
    ensures Timers(emitted)[emitted[i].timer] >= 1
    decreases |emitted|
  {
    if i < |emitted| - 1 {
      TimersIn(emitted[..|emitted| - 1], i);
    }
  }

  /** A timer accepted once is emitted at most once. */
  lemma {:induction false} EmittedTwice(emitted: seq<Emission>, i: nat, j: nat)
    requires i < j < |emitted| && emitted[i].timer == emitted[j].timer
    ensures Timers(emitted)[emitted[i].timer] >= 2
    decreases |emitted|
  {
    var init := emitted[..|emitted| - 1];
    if j < |emitted| - 1 {
      EmittedTwice(init, i, j);
    } else {
      TimersIn(init, i);
    }
  }

  lemma AtMostOnce(evs: seq<Event>, logs: seq<Log>, i: nat, j: nat)
    requires IsRun(evs, logs) && logs[0] == Log(State([], [], false), [], [], 0)
    requires var l := logs[|evs|]; i < j < |l.emitted|
    requires var l := logs[|evs|]; multiset(l.accepted)[l.emitted[i].timer] == 1
    ensures var l := logs[|evs|]; l.emitted[i].timer != l.emitted[j].timer
  {
    TimerSafety(evs, logs, |evs|);
    var l := logs[|evs|];
    if l.emitted[i].timer == l.emitted[j].timer {
      EmittedTwice(l.emitted, i, j);
    }
  }

  /** What was emitted stays in the record. */
  lemma {:induction false} EmittedGrows(evs: seq<Event>, logs: seq<Log>, a: nat, b: nat)
    requires IsRun(evs, logs) && a <= b <= |evs|
    ensures |logs[a].emitted| <= |logs[b].emitted| && logs[a].emitted == logs[b].emitted[..|logs[a].emitted|]
    decreases b - a
  {
    if a < b {
      EmittedGrows(evs, logs, a, b - 1);
      assert logs[b - 1 + 1] == Next(logs[b - 1], evs[b - 1]);
      assert logs[b - 1].emitted == logs[b].emitted[..|logs[b - 1].emitted|];
    }
  }

  /** Until the next wake-up everything queued is later than the timer emitted at `a`. */
  lemma {:induction false} QueueIsLater(evs: seq<Event>, logs: seq<Log>, a: nat, k: nat)
    requires IsRun(evs, logs) && a < k <= |evs| && evs[a].Emit? && Ascending(logs[a].st.clients)
    requires forall j :: a < j < k ==> !evs[j].Wake?
    ensures logs[a].st.clients != [] && evs[a].now <= logs[k].clock
    ensures forall i :: 0 <= i < |logs[k].st.clients| ==> logs[a].st.clients[0].time < logs[k].st.clients[i].time
    decreases k
  {
    assert logs[k - 1 + 1] == Next(logs[k - 1], evs[k - 1]);
    if a + 1 < k {
      QueueIsLater(evs, logs, a, k - 1);
    }
  }

  /** Batch order: of two emissions with no wake-up between them, whatever timers are
      added meanwhile, the later one has the later time. */
  lemma BatchInOrder(evs: seq<Event>, logs: seq<Log>, a: nat, b: nat)
    requires IsRun(evs, logs) && logs[0] == Log(State([], [], false), [], [], 0)
    requires a < b < |evs| && evs[a].Emit? && evs[b].Emit?
    requires forall k :: a < k < b ==> !evs[k].Wake?
    ensures var e, i, j := logs[|evs|].emitted, |logs[a].emitted|, |logs[b].emitted|;
            && i < j < |e| && e[i].at == evs[a].now <= e[j].at == evs[b].now
            && e[i].timer.time < e[j].timer.time
  {
    TimerSafety(evs, logs, a);
    QueueIsLater(evs, logs, a, b);
    assert logs[a + 1] == Next(logs[a], evs[a]) && logs[b + 1] == Next(logs[b], evs[b]);
    EmittedGrows(evs, logs, a + 1, b);
    EmittedGrows(evs, logs, a + 1, |evs|);
    EmittedGrows(evs, logs, b + 1, |evs|);
    var e, i, j := logs[|evs|].emitted, |logs[a].emitted|, |logs[b].emitted|;
    assert e[i] == logs[a + 1].emitted[i] && e[j] == logs[b + 1].emitted[j];
  }
}

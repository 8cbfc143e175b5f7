/** Runs of the id filter against the true, unbounded numbering of messages.

A message with true number n carries the id n % 256.  First transmissions arrive in
increasing order, or not at all, or are overtaken and arrive late; copies with the REPEATED
flag arrive at any time.  `Counter` is the true number behind the receiver's 8-bit counter.
 */
module IdRuns {
  import opened IdFilter

  datatype Event =
    | First(number: nat, now: int)    // a first transmission ahead of all before it
    | Overtaken(number: nat, now: int)     // a packet without the REPEATED flag that was overtaken
    | Repeat(number: nat, now: int)   // a copy with the REPEATED flag

  function Apply(st: State, ev: Event): Verdict {
    Admit(st, ev.Repeat?, ev.number % IDS, ev.now)
  }

  // ---------- one first transmission ----------

  /** The gap from `c` to `s` is one the counter follows. */
  predicate Follows(c: nat, s: nat)
    requires c <= s
  {
    s - c <= 155 || c % IDS + (s - c) < IDS
  }

  lemma RingPosition(c: nat, g: nat)
    requires g < IDS
    ensures (c + g) % IDS == if c % IDS + g < IDS then c % IDS + g else c % IDS + g - IDS
  {
  }

  /** The counter after a first transmission, for gaps below 256. */
  lemma FirstMovesCounter(st: State, c: nat, s: nat, now: int)
    requires st.next == c % IDS && c <= s < c + IDS
    ensures var v := Admit(st, false, s % IDS, now);
            v.passed && v.state.next == if Follows(c, s) then (s + 1) % IDS else c % IDS
  {
    RingPosition(c, s - c);
    RingPosition(s, 1);
  }

  /** When the counter is right after a first transmission, for gaps of any size: the
      gap is at most 155 modulo 256, or it does not wrap, or it wraps all the way
      round to the id before the counter. */
  lemma CounterExact(st: State, c: nat, s: nat, now: int)
    requires st.next == c % IDS && c <= s
    ensures var g := (s - c) % IDS;
            Admit(st, false, s % IDS, now).state.next == (s + 1) % IDS <==>
            g <= 155 || c % IDS + g < IDS || g == 255
  {
    var g := (s - c) % IDS;
    var s' := c + g;
    SameResidue(c, s);
    FirstMovesCounter(st, c, s', now);
    RingPosition(c, g);
    RingPosition(s', 1);
    RingPosition(s, 1);
  }

  /** An unflagged packet of a message behind the counter, with no wrap between them, always
      passes and leaves the counter alone.  It strikes its id from the list if it is less
      than 100 behind; exactly 100 behind, it changes nothing. */
  lemma LatePacket(st: State, c: nat, x: nat, now: int)
    requires st.next == c % 256 && x < c && c - x <= 100 && c - x <= c % 256
    ensures var v, id := Admit(st, false, x % 256, now), x % 256;
            && v.passed && v.state.next == st.next && v.state.fragments == st.fragments
            && v.state.lost == if c - x < 100 then st.lost - {id} else st.lost
  {
    RingPosition(x, c - x);
  }

  lemma SameResidue(c: nat, s: nat)
    requires c <= s
    ensures (c + (s - c) % IDS) % IDS == s % IDS
  {
    var q := (s - c) / IDS;
    assert c + (s - c) % IDS == s - q * IDS;
    assert (s - q * IDS) % IDS == s % IDS;
  }

  /** 155 is tight: a wrapped gap of 156 leaves the counter behind. */
  lemma Gap156NotFollowed(st: State, c: nat, now: int)
    requires st.next == c % IDS && c % IDS >= 100
    ensures Admit(st, false, (c + 156) % IDS, now).state.next != (c + 157) % IDS
  {
    CounterExact(st, c, c + 156, now);
  }

  /** Some message from `c` on and before `s` has this id. */
  ghost predicate Between(c: nat, s: nat, id: int) {
    exists x: nat :: c <= x < s && x % IDS == id
  }

  /** An entry of the list is an old one, or one that a followed gap entered. */
  ghost predicate KeptOrEntered(old': Lost, new': Lost, id: int, c: nat, s: nat, now: int)
    requires c <= s && id in new'
  {
    || (id in old' && new'[id] == old'[id])
    || (Follows(c, s) && new'[id] == now && Between(c, s, id))
  }

  /** What a first transmission does to the list. */
  lemma FirstAndList(st: State, c: nat, s: nat, now: int)
    requires Valid(st) && st.next == c % IDS && c <= s < c + IDS
    ensures var lost := Admit(st, false, s % IDS, now).state.lost;
            forall id :: id in lost ==> KeptOrEntered(st.lost, lost, id, c, s, now)
  {
    RingPosition(c, s - c);
    var lost := Admit(st, false, s % IDS, now).state.lost;
    forall id | id in lost
      ensures KeptOrEntered(st.lost, lost, id, c, s, now)
    {
      var start := FillStart(st.next, s % IDS);
      if !(id in st.lost && lost[id] == st.lost[id]) {
        assert Skipped(id, start, s % IDS);
        SkippedIsBetween(c, s, start, id);
      }
    }
  }

  lemma SkippedIsBetween(c: nat, s: nat, start: int, id: int)
    requires c <= s < c + IDS && Follows(c, s)
    requires start == FillStart(c % IDS, s % IDS) && Skipped(id, start, s % IDS)
    ensures Between(c, s, id)
  {
    RingPosition(c, s - c);
    var x := c + (start - c % IDS) + Distance(start, id);
    RingPosition(c, x - c);
    assert c <= x < s && x % IDS == id;
  }

  // ---------- runs ----------

  /** One more than the number of the last first transmission, `b` before there is one. */
  function Expected(evs: seq<Event>, n: nat, b: nat): nat
    requires n <= |evs|
  {
    if n == 0 then b else if evs[n - 1].First? then evs[n - 1].number + 1 else Expected(evs, n - 1, b)
  }

  /** The true number the receiver's counter stands for. */
  function Counter(evs: seq<Event>, n: nat, b: nat): nat
    requires n <= |evs|
  {
    if n == 0 then b
    else
      var c := Counter(evs, n - 1, b);
      var ev := evs[n - 1];
      if ev.First? && c <= ev.number && Follows(c, ev.number) then ev.number + 1 else c
  }

  /** First transmissions come in increasing order. */
  ghost predicate InOrder(evs: seq<Event>, b: nat) {
    forall i :: 0 <= i < |evs| && evs[i].First? ==> Expected(evs, i, b) <= evs[i].number
  }

  /** At most 155 consecutive messages are missing. */
  ghost predicate SmallGaps(evs: seq<Event>, b: nat) {
    forall i :: 0 <= i < |evs| && evs[i].First? ==> evs[i].number <= Expected(evs, i, b) + 155
  }

  /** The states and verdicts of a run of the filter. */
  ghost predicate IsRun(evs: seq<Event>, states: seq<State>, passed: seq<bool>) {
    && |states| == |evs| + 1 && |passed| == |evs|
    && forall i :: 0 <= i < |evs| ==> Apply(states[i], evs[i]) == Verdict(states[i + 1], passed[i])
  }

  /** Overtaken packets are less than 100 behind the counter, and it has not wrapped since. */
  ghost predicate LatesAreClose(evs: seq<Event>, b: nat) {
    forall i :: 0 <= i < |evs| && evs[i].Overtaken? ==> Close(Counter(evs, i, b), evs[i].number)
  }

  predicate Close(c: nat, x: nat) {
    x < c && c - x < 100 && c - x <= c % IDS
  }

  lemma CounterStep(st: State, e: nat, ev: Event, st': State, e': nat)
    requires st.next == e % IDS && (ev.First? ==> e <= ev.number <= e + 155) && (ev.Overtaken? ==> Close(e, ev.number))
    requires st' == Apply(st, ev).state && e' == if ev.First? then ev.number + 1 else e
    ensures st'.next == e' % IDS
  {
    if ev.First? {
      FirstMovesCounter(st, e, ev.number, ev.now);
    } else if ev.Overtaken? {
      LatePacket(st, e, ev.number, ev.now);
    }
  }

  /** Counter refinement: with small gaps the 8-bit counter is the true expected number
      modulo 256, whatever REPEATED copies and overtaken packets are interleaved. */
  lemma {:induction false} CounterRefinement(evs: seq<Event>, states: seq<State>, passed: seq<bool>, b: nat, n: nat)
    requires IsRun(evs, states, passed) && states[0].next == b % IDS && n <= |evs|
    requires InOrder(evs, b) && SmallGaps(evs, b) && LatesAreClose(evs, b)
    ensures states[n].next == Expected(evs, n, b) % IDS
  {
    if n > 0 {
      var k := n - 1;
      CounterRefinement(evs, states, passed, b, k);
      RunAt(evs, states, passed, k);
      EventFits(evs, b, k);
      CounterStep(states[k], Expected(evs, k, b), evs[k], states[n], Expected(evs, n, b));
    }
  }

  /** What order and small gaps say of one event. */
  lemma EventFits(evs: seq<Event>, b: nat, k: nat)
    requires k < |evs| && InOrder(evs, b) && SmallGaps(evs, b) && LatesAreClose(evs, b)
    ensures var e := Expected(evs, k, b);
            && (evs[k].First? ==> e <= evs[k].number <= e + 155) && (evs[k].Overtaken? ==> Close(e, evs[k].number))
            && Expected(evs, k + 1, b) == if evs[k].First? then evs[k].number + 1 else e
  {
    CounterIsExpected(evs, k, b);
  }

  // ---------- at most once ----------

  /** First transmissions in order, none 256 or more ahead of the counter, or overtaken by
      less than 100. */
  ghost predicate Regular(evs: seq<Event>, b: nat) {
    && (forall i :: 0 <= i < |evs| && evs[i].First? ==>
          Expected(evs, i, b) <= evs[i].number < Counter(evs, i, b) + IDS)
    && LatesAreClose(evs, b)
  }

  /** With small gaps the counter stands for the expected number, and all traffic is regular. */
  lemma SmallGapsAreRegular(evs: seq<Event>, b: nat)
    requires InOrder(evs, b) && SmallGaps(evs, b) && LatesAreClose(evs, b)
    ensures Regular(evs, b)
    ensures forall n :: 0 <= n <= |evs| ==> Counter(evs, n, b) == Expected(evs, n, b)
  {
    forall n | 0 <= n <= |evs|
      ensures Counter(evs, n, b) == Expected(evs, n, b)
    {
      CounterIsExpected(evs, n, b);
    }
  }

  lemma {:induction false} CounterIsExpected(evs: seq<Event>, n: nat, b: nat)
    requires InOrder(evs, b) && SmallGaps(evs, b) && n <= |evs|
    ensures Counter(evs, n, b) == Expected(evs, n, b)
  {
    if n > 0 {
      CounterIsExpected(evs, n - 1, b);
    }
  }

  /** The message `x` was skipped by the first transmission at `k`. */
  ghost predicate SkippedAt(evs: seq<Event>, b: nat, k: nat, x: nat)
    requires k < |evs|
  {
    evs[k].First? && Counter(evs, k, b) <= x < evs[k].number
  }

  /** When a copy arrives, no other message with its id was skipped in the last 10 s. */
  ghost predicate NoAlias(evs: seq<Event>, b: nat) {
    forall k: nat, j: nat, x: nat :: k < j < |evs| && evs[j].Repeat? && SkippedAt(evs, b, k, x)
                      && x % IDS == evs[j].number % IDS && x != evs[j].number
      ==> evs[j].now - evs[k].now >= LIFETIME
  }

  ghost predicate NotPassed(evs: seq<Event>, passed: seq<bool>, n: nat, x: nat)
    requires n <= |evs| == |passed|
  {
    forall i :: 0 <= i < n && passed[i] ==> evs[i].number != x
  }

  /** An entry of the list stands for a message that was skipped and has not passed. */
  ghost predicate Owed(evs: seq<Event>, passed: seq<bool>, b: nat, n: nat, id: int, stamp: int)
    requires n <= |evs| == |passed|
  {
    exists k: nat, x: nat :: k < n && SkippedAt(evs, b, k, x) && evs[k].now == stamp
                             && x % IDS == id && x < Counter(evs, n, b) && NotPassed(evs, passed, n, x)
  }

  ghost predicate ListInv(evs: seq<Event>, passed: seq<bool>, b: nat, n: nat, lost: Lost)
    requires n <= |evs| == |passed|
  {
    forall id :: id in lost ==> Owed(evs, passed, b, n, id, lost[id])
  }

  ghost predicate CounterInv(evs: seq<Event>, b: nat, n: nat, st: State)
    requires n <= |evs|
  {
    var c, e := Counter(evs, n, b), Expected(evs, n, b);
    && Valid(st) && st.next == c % IDS
    && c <= e && (c < e ==> e - 1 - c < IDS && !Follows(c, e - 1))
  }

  ghost predicate PassedBelow(evs: seq<Event>, passed: seq<bool>, b: nat, n: nat)
    requires n <= |evs| == |passed|
  {
    forall i :: 0 <= i < n && passed[i] ==> evs[i].number < Expected(evs, n, b)
  }

  /** Only an overtaken packet without the flag passes after its message passed. */
  ghost predicate AllDistinct(evs: seq<Event>, passed: seq<bool>, n: nat)
    requires n <= |evs| == |passed|
  {
    forall i, j :: 0 <= i < j < n && passed[i] && passed[j] && !evs[j].Overtaken? ==> evs[i].number != evs[j].number
  }

  /** What holds after `n` events, when the filter is in state `st`. */
  ghost predicate RunInv(evs: seq<Event>, passed: seq<bool>, b: nat, n: nat, st: State)
    requires n <= |evs| == |passed|
  {
    && CounterInv(evs, b, n, st) && PassedBelow(evs, passed, b, n)
    && ListInv(evs, passed, b, n, st.lost) && AllDistinct(evs, passed, n)
  }

  /** Once the counter is left behind it stays behind for the rest of the cycle. */
  lemma StuckStays(c: nat, s: nat, s': nat)
    requires c <= s <= s' && !Follows(c, s)
    ensures !Follows(c, s')
  {
  }

  lemma OldEntryOwed(evs: seq<Event>, passed: seq<bool>, b: nat, n: nat, id: int, stamp: int)
    requires n < |evs| == |passed| && Owed(evs, passed, b, n, id, stamp)
    requires Counter(evs, n, b) <= Counter(evs, n + 1, b)
    requires passed[n] ==> Counter(evs, n, b) <= evs[n].number
    ensures Owed(evs, passed, b, n + 1, id, stamp)
  {
    var k: nat, x: nat :| k < n && SkippedAt(evs, b, k, x) && evs[k].now == stamp
                          && x % IDS == id && x < Counter(evs, n, b) && NotPassed(evs, passed, n, x);
    assert NotPassed(evs, passed, n + 1, x);
  }

  lemma NewEntryOwed(evs: seq<Event>, passed: seq<bool>, b: nat, n: nat, id: int)
    requires n < |evs| == |passed| && evs[n].First? && PassedBelow(evs, passed, b, n)
    requires Counter(evs, n, b) == Expected(evs, n, b) <= evs[n].number < Counter(evs, n + 1, b)
    requires Between(Counter(evs, n, b), evs[n].number, id)
    ensures Owed(evs, passed, b, n + 1, id, evs[n].now)
  {
    var x: nat :| Counter(evs, n, b) <= x < evs[n].number && x % IDS == id;
    assert SkippedAt(evs, b, n, x);
    assert NotPassed(evs, passed, n + 1, x);
  }

  /** A first transmission moves both numbers as the counter invariant wants. */
  lemma FirstKeepsCounter(evs: seq<Event>, b: nat, n: nat, st: State, st': State)
    requires n < |evs| && evs[n].First? && Regular(evs, b) && CounterInv(evs, b, n, st)
    requires st' == Apply(st, evs[n]).state
    ensures CounterInv(evs, b, n + 1, st')
    ensures Counter(evs, n, b) <= Counter(evs, n + 1, b)
    ensures Follows(Counter(evs, n, b), evs[n].number) ==>
              Counter(evs, n, b) == Expected(evs, n, b) && Counter(evs, n + 1, b) == evs[n].number + 1
  {
    var ev, c, e := evs[n], Counter(evs, n, b), Expected(evs, n, b);
    assert e <= ev.number < c + IDS;
    if c < e {
      StuckStays(c, e - 1, ev.number);
    }
    var c' := Counter(evs, n + 1, b);
    assert c' == if Follows(c, ev.number) then ev.number + 1 else c;
    NextAfterFirst(st, c, ev, st', c');
    AdmitValid(st, false, ev.number % IDS, ev.now);
  }

  lemma NextAfterFirst(st: State, c: nat, ev: Event, st': State, c': nat)
    requires ev.First? && st.next == c % IDS && c <= ev.number < c + IDS
    requires st' == Apply(st, ev).state
    requires c' == if Follows(c, ev.number) then ev.number + 1 else c
    ensures st'.next == c' % IDS
  {
    FirstMovesCounter(st, c, ev.number, ev.now);
  }

  lemma FirstStep(evs: seq<Event>, passed: seq<bool>, b: nat, n: nat, st: State, st': State)
    requires n < |evs| == |passed| && evs[n].First? && Regular(evs, b)
    requires RunInv(evs, passed, b, n, st) && Apply(st, evs[n]) == Verdict(st', passed[n])
    ensures RunInv(evs, passed, b, n + 1, st')
  {
    var ev, c := evs[n], Counter(evs, n, b);
    assert Expected(evs, n, b) <= ev.number < c + IDS;
    FirstKeepsCounter(evs, b, n, st, st');
    FirstAndList(st, c, ev.number, ev.now);
    FirstKeepsRest(evs, passed, b, n, st.lost, st'.lost);
  }

  lemma FirstKeepsRest(evs: seq<Event>, passed: seq<bool>, b: nat, n: nat, lost: Lost, lost': Lost)
    requires n < |evs| == |passed| && evs[n].First?
    requires ListInv(evs, passed, b, n, lost) && PassedBelow(evs, passed, b, n) && AllDistinct(evs, passed, n)
    requires Counter(evs, n, b) <= Expected(evs, n, b) <= evs[n].number
    requires Counter(evs, n, b) <= Counter(evs, n + 1, b)
    requires Follows(Counter(evs, n, b), evs[n].number) ==>
               Counter(evs, n, b) == Expected(evs, n, b) && Counter(evs, n + 1, b) == evs[n].number + 1
    requires forall id :: id in lost' ==>
               KeptOrEntered(lost, lost', id, Counter(evs, n, b), evs[n].number, evs[n].now)
    ensures ListInv(evs, passed, b, n + 1, lost')
    ensures PassedBelow(evs, passed, b, n + 1) && AllDistinct(evs, passed, n + 1)
  {
    forall id | id in lost'
      ensures Owed(evs, passed, b, n + 1, id, lost'[id])
    {
      if id in lost && lost'[id] == lost[id] {
        OldEntryOwed(evs, passed, b, n, id, lost[id]);
      } else {
        NewEntryOwed(evs, passed, b, n, id);
      }
    }
  }

  lemma RepeatStep(evs: seq<Event>, passed: seq<bool>, b: nat, n: nat, st: State, st': State)
    requires n < |evs| == |passed| && evs[n].Repeat? && NoAlias(evs, b)
    requires RunInv(evs, passed, b, n, st) && Apply(st, evs[n]) == Verdict(st', passed[n])
    ensures RunInv(evs, passed, b, n + 1, st')
  {
    var ev, id := evs[n], evs[n].number % IDS;
    if passed[n] {
      assert id in st.lost && ev.now - st.lost[id] < LIFETIME;
      CopyIsOwed(evs, passed, b, n, st.lost[id]);
    }
    assert st'.lost == st.lost - {id};
    forall i | i in st'.lost
      ensures Owed(evs, passed, b, n + 1, i, st'.lost[i])
    {
      OtherEntryOwed(evs, passed, b, n, i, st.lost[i]);
    }
  }

  lemma LateStep(evs: seq<Event>, passed: seq<bool>, b: nat, n: nat, st: State, st': State)
    requires n < |evs| == |passed| && evs[n].Overtaken? && Close(Counter(evs, n, b), evs[n].number)
    requires RunInv(evs, passed, b, n, st) && Apply(st, evs[n]) == Verdict(st', passed[n])
    ensures RunInv(evs, passed, b, n + 1, st')
  {
    var ev, id := evs[n], evs[n].number % IDS;
    LatePacket(st, Counter(evs, n, b), ev.number, ev.now);
    forall i | i in st'.lost
      ensures Owed(evs, passed, b, n + 1, i, st'.lost[i])
    {
      OtherEntryOwed(evs, passed, b, n, i, st.lost[i]);
    }
  }

  /** The entry a copy consumes stands for the very message it copies. */
  lemma CopyIsOwed(evs: seq<Event>, passed: seq<bool>, b: nat, n: nat, stamp: int)
    requires n < |evs| == |passed| && evs[n].Repeat? && NoAlias(evs, b)
    requires Owed(evs, passed, b, n, evs[n].number % IDS, stamp) && evs[n].now - stamp < LIFETIME
    ensures NotPassed(evs, passed, n, evs[n].number) && evs[n].number < Counter(evs, n, b)
  {
    var k: nat, x: nat :| k < n && SkippedAt(evs, b, k, x) && evs[k].now == stamp
                          && x % IDS == evs[n].number % IDS && x < Counter(evs, n, b)
                          && NotPassed(evs, passed, n, x);
    assert x == evs[n].number;
  }

  lemma OtherEntryOwed(evs: seq<Event>, passed: seq<bool>, b: nat, n: nat, id: int, stamp: int)
    requires n < |evs| == |passed| && !evs[n].First? && id != evs[n].number % IDS
    requires Owed(evs, passed, b, n, id, stamp)
    ensures Owed(evs, passed, b, n + 1, id, stamp)
  {
    var k: nat, x: nat :| k < n && SkippedAt(evs, b, k, x) && evs[k].now == stamp
                          && x % IDS == id && x < Counter(evs, n, b) && NotPassed(evs, passed, n, x);
    assert x != evs[n].number;
    assert NotPassed(evs, passed, n + 1, x);
  }

  lemma RunKeepsInv(evs: seq<Event>, states: seq<State>, passed: seq<bool>, b: nat, n: nat)
    requires IsRun(evs, states, passed) && n <= |evs|
    requires states[0].lost == map[] && states[0].next == b % IDS
    requires Regular(evs, b) && NoAlias(evs, b)
    ensures RunInv(evs, passed, b, n, states[n])
  {
    StartInv(evs, passed, b, states[0]);
    forall k: nat | k < |evs| && RunInv(evs, passed, b, k, states[k])
      ensures RunInv(evs, passed, b, k + 1, states[k + 1])
    {
      RunAt(evs, states, passed, k);
      AnyStep(evs, passed, b, k, states[k], states[k + 1]);
    }
    StepByStep(evs, states, passed, b, n);
  }

  lemma {:induction false} StepByStep(evs: seq<Event>, states: seq<State>, passed: seq<bool>, b: nat, n: nat)
    requires |states| == |evs| + 1 && |passed| == |evs| && n <= |evs|
    requires RunInv(evs, passed, b, 0, states[0])
    requires forall k: nat :: k < |evs| && RunInv(evs, passed, b, k, states[k]) ==>
               RunInv(evs, passed, b, k + 1, states[k + 1])
    ensures RunInv(evs, passed, b, n, states[n])
  {
    if n > 0 {
      StepByStep(evs, states, passed, b, n - 1);
      assert RunInv(evs, passed, b, (n - 1) + 1, states[(n - 1) + 1]);
    }
  }

  lemma StartInv(evs: seq<Event>, passed: seq<bool>, b: nat, st: State)
    requires |evs| == |passed| && st.lost == map[] && st.next == b % IDS
    ensures RunInv(evs, passed, b, 0, st)
  {
  }

  lemma RunAt(evs: seq<Event>, states: seq<State>, passed: seq<bool>, i: nat)
    requires IsRun(evs, states, passed) && i < |evs|
    ensures Apply(states[i], evs[i]) == Verdict(states[i + 1], passed[i])
  {
  }

  lemma AnyStep(evs: seq<Event>, passed: seq<bool>, b: nat, n: nat, st: State, st': State)
    requires n < |evs| == |passed| && Regular(evs, b) && NoAlias(evs, b)
    requires RunInv(evs, passed, b, n, st) && Apply(st, evs[n]) == Verdict(st', passed[n])
    ensures RunInv(evs, passed, b, n + 1, st')
  {
    if evs[n].First? {
      FirstStep(evs, passed, b, n, st, st');
    } else if evs[n].Overtaken? {
      LateStep(evs, passed, b, n, st, st');
    } else {
      RepeatStep(evs, passed, b, n, st, st');
    }
  }

  lemma UnflaggedPasses(st: State, ev: Event)
    requires !ev.Repeat?
    ensures Apply(st, ev).passed
  {
  }

  /** At most once: of a message that has passed the filter a further packet passes if and
      only if it is an overtaken one without the REPEATED flag. */
  lemma AtMostOnce(evs: seq<Event>, states: seq<State>, passed: seq<bool>, b: nat, i: nat, j: nat)
    requires IsRun(evs, states, passed) && states[0].lost == map[] && states[0].next == b % IDS
    requires Regular(evs, b) && NoAlias(evs, b)
    requires i < j < |evs| && passed[i] && evs[i].number == evs[j].number
    ensures passed[j] <==> evs[j].Overtaken?
  {
    RunKeepsInv(evs, states, passed, b, |evs|);
    if evs[j].Overtaken? {
      RunAt(evs, states, passed, j);
      UnflaggedPasses(states[j], evs[j]);
    }
  }

  /** Over one cycle of ids no condition on gaps or times is needed. */
  lemma AtMostOnceInOneCycle(evs: seq<Event>, states: seq<State>, passed: seq<bool>, b: nat, i: nat, j: nat)
    requires IsRun(evs, states, passed) && states[0].lost == map[] && states[0].next == b % IDS
    requires InOrder(evs, b) && LatesAreClose(evs, b)
    requires forall k :: 0 <= k < |evs| ==> b <= evs[k].number < b + IDS
    requires i < j < |evs| && passed[i] && evs[i].number == evs[j].number
    ensures passed[j] <==> evs[j].Overtaken?
  {
    OneCycleIsRegular(evs, b);
    AtMostOnce(evs, states, passed, b, i, j);
  }

  /** A message that was overtaken and its copies: after it has passed, none of them does. */
  lemma OvertakenThenCopy(evs: seq<Event>, states: seq<State>, passed: seq<bool>, b: nat, i: nat, j: nat)
    requires IsRun(evs, states, passed) && states[0].lost == map[] && states[0].next == b % IDS
    requires Regular(evs, b) && NoAlias(evs, b)
    requires i < j < |evs| && evs[i].Overtaken? && evs[j].Repeat? && evs[i].number == evs[j].number
    ensures passed[i] && !passed[j]
  {
    RunAt(evs, states, passed, i);
    UnflaggedPasses(states[i], evs[i]);
    AtMostOnce(evs, states, passed, b, i, j);
  }

  /** The other way round both pass: a copy that finds its entry, then the overtaken packet. */
  lemma CopyThenOvertaken(st: State, x: nat, c: nat, now: int, later: int)
    requires st.next == c % 256 && x < c && c - x < 100 && c - x <= c % 256
    requires x % 256 in st.lost && now - st.lost[x % 256] < 10_000
    ensures var v := Apply(st, Repeat(x, now));
            v.passed && v.state.next == st.next && x % 256 !in v.state.lost && Apply(v.state, Overtaken(x, later)).passed
  {
  }

  lemma OneCycleIsRegular(evs: seq<Event>, b: nat)
    requires InOrder(evs, b) && LatesAreClose(evs, b)
    requires forall k :: 0 <= k < |evs| ==> b <= evs[k].number < b + IDS
    ensures Regular(evs, b) && NoAlias(evs, b)
  {
    forall k | 0 <= k < |evs|
      ensures Counter(evs, k, b) >= b
    {
      CounterFromBase(evs, k, b);
    }
    forall k: nat, j: nat, x: nat | k < j < |evs| && SkippedAt(evs, b, k, x) && x % IDS == evs[j].number % IDS
      ensures x == evs[j].number
    {
      SameIdInCycle(b, x, evs[j].number);
    }
  }

  lemma SameIdInCycle(b: nat, x: nat, y: nat)
    requires b <= x < b + IDS && b <= y < b + IDS && x % IDS == y % IDS
    ensures x == y
  {
  }

  lemma {:induction false} CounterFromBase(evs: seq<Event>, n: nat, b: nat)
    requires n <= |evs|
    ensures Counter(evs, n, b) >= b
  {
    if n > 0 {
      CounterFromBase(evs, n - 1, b);
    }
  }

  /** A first transmission that reveals a gap: the counter moves on, and an entry that is
      not stale, or is now entered, is in the list. */
  lemma GapStep(st: State, s: nat, now: int, id: int)
    requires Valid(st) && 0 <= id < IDS && !Late(st, false, s % IDS) && Gap(st, s % IDS)
    ensures var v := Apply(st, First(s, now));
            && v.passed && Valid(v.state) && v.state.next == Succ(s % IDS)
            && (id in st.lost && !Stale(id, st.lost[id], s % IDS, now) ==>
                  id in v.state.lost && v.state.lost[id] == st.lost[id])
            && (id !in st.lost && Skipped(id, FillStart(st.next, s % IDS), s % IDS) ==>
                  id in v.state.lost && v.state.lost[id] == now)
  {
    AdmitValid(st, false, s % IDS, now);
  }

  function AliasTraffic(): seq<Event> {
    [First(0, 0), First(2, 1), First(130, 2), First(257, 3), Repeat(257, 4)]
  }

  lemma AliasTrafficIsRegular()
    ensures InOrder(AliasTraffic(), 0) && SmallGaps(AliasTraffic(), 0)
  {
    var evs := AliasTraffic();
    assert Expected(evs, 0, 0) == 0 && Expected(evs, 1, 0) == 1;
    assert Expected(evs, 2, 0) == 3 && Expected(evs, 3, 0) == 131;
  }

  lemma AliasBegins() returns (s1: State, s2: State)
    ensures Apply(State(0, map[], {}), First(0, 0)) == Verdict(s1, true)
    ensures Apply(s1, First(2, 1)) == Verdict(s2, true)
    ensures Valid(s2) && s2.next == 3 && 1 in s2.lost && s2.lost[1] == 1
  {
    s1 := State(1, map[], {});
    GapStep(s1, 2, 1, 1);
    s2 := Apply(s1, First(2, 1)).state;
  }

  lemma AliasContinues(s2: State) returns (s3: State)
    requires Valid(s2) && s2.next == 3 && 1 in s2.lost && s2.lost[1] == 1
    ensures Apply(s2, First(130, 2)) == Verdict(s3, true)
    ensures Valid(s3) && s3.next == 131 && 1 in s3.lost && s3.lost[1] == 1
  {
    GapStep(s2, 130, 2, 1);
    s3 := Apply(s2, First(130, 2)).state;
  }

  lemma AliasEnds(s3: State) returns (s4: State, s5: State)
    requires Valid(s3) && s3.next == 131 && 1 in s3.lost && s3.lost[1] == 1
    ensures Apply(s3, First(257, 3)) == Verdict(s4, true)
    ensures Apply(s4, Repeat(257, 4)) == Verdict(s5, true)
  {
    GapStep(s3, 257, 3, 1);
    s4 := Apply(s3, First(257, 3)).state;
    assert s4.lost[1] == 1;
    s5 := Apply(s4, Repeat(257, 4)).state;
  }

  /** Beyond one cycle the condition on aliases is needed: with 257 messages inside ten
      seconds, message 257 passes, and so does its copy, on the entry of message 1. */
  lemma AliasPassesTwice() returns (states: seq<State>, passed: seq<bool>)
    ensures IsRun(AliasTraffic(), states, passed) && states[0] == State(0, map[], {})
    ensures passed[3] && passed[4] && AliasTraffic()[3].number == AliasTraffic()[4].number
  {
    var s1, s2 := AliasBegins();
    var s3 := AliasContinues(s2);
    var s4, s5 := AliasEnds(s3);
    states := [State(0, map[], {}), s1, s2, s3, s4, s5];
    passed := [true, true, true, true, true];
    var evs := AliasTraffic();
    forall i | 0 <= i < 5
      ensures Apply(states[i], evs[i]) == Verdict(states[i + 1], passed[i])
    {
      if i == 0 {
      } else if i == 1 {
      } else if i == 2 {
      } else if i == 3 {
      }
    }
  }

  /** A packet without the REPEATED flag that belongs to a message before the counter, as
      a fragment of it does, leaves the counter alone exactly if it is at most 100 behind
      and the counter has not wrapped since, or is the very last one. */
  lemma OldPacketAndCounter(st: State, c: nat, x: nat, now: int)
    requires st.next == c % IDS && x < c < x + IDS
    ensures Admit(st, false, x % IDS, now).state.next == st.next <==>
            (c % IDS >= c - x && c - x <= 100) || (c % IDS < c - x && c - x == 1)
  {
    RingPosition(x, c - x);
    RingPosition(x, 1);
  }

  // ---------- filling the list ----------

  /** `fill_lost_msg`: the counter arrives at `msgId`; no entry is older than 10 s; the
      list holds exactly the entries that were not stale, with their stamps, and the ids
      from the start of the fill up to `msgId`, stamped now. */
  lemma FillExact(st: State, msgId: int, now: int)
    requires Valid(st) && 0 <= msgId < IDS && Gap(st, msgId)
    ensures var r := Fill(st, msgId, now);
            && r.next == msgId
            && (forall id :: id in r.lost ==> now - r.lost[id] <= 10_000)
            && (forall id :: id in r.lost <==>
                  (id in st.lost && !Stale(id, st.lost[id], msgId, now)) ||
                  Skipped(id, FillStart(st.next, msgId), msgId))
            && (forall id :: id in r.lost ==>
                  r.lost[id] == if id in st.lost && !Stale(id, st.lost[id], msgId, now) then st.lost[id] else now)
  {
    var purged := Purge(st.lost, msgId, now);
    forall id | id in purged
      ensures now - purged[id] <= LIFETIME
    {
      assert !Stale(id, st.lost[id], msgId, now);
    }
  }

  /** The ids entered are exactly those of the messages skipped, unless a gap of more
      than 100 does not wrap: then only the last 100 are entered. */
  lemma FillEntersSkipped(c: nat, s: nat, id: int)
    requires c < s < c + IDS && Follows(c, s) && 0 <= id < IDS
    ensures c % IDS + (s - c) >= IDS || s - c <= 100 ==>
              (Skipped(id, FillStart(c % IDS, s % IDS), s % IDS) <==> Between(c, s, id))
    ensures c % IDS + (s - c) < IDS && s - c > 100 ==>
              (Skipped(id, FillStart(c % IDS, s % IDS), s % IDS) <==> Between(s - 100, s, id))
  {
    RingPosition(c, s - c);
    var from := if c % IDS + (s - c) >= IDS || s - c <= 100 then c else s - 100;
    RingPosition(c, from - c);
    var start := FillStart(c % IDS, s % IDS);
    assert start == from % IDS;
    BetweenIsSkipped(from, s, id);
  }

  lemma BetweenIsSkipped(from: nat, s: nat, id: int)
    requires from < s < from + IDS && 0 <= id < IDS
    ensures Skipped(id, from % IDS, s % IDS) <==> Between(from, s, id)
  {
    RingPosition(from, s - from);
    var x := from + Distance(from % IDS, id);
    RingPosition(from, x - from);
    assert x % IDS == id;
    if Skipped(id, from % IDS, s % IDS) {
      assert from <= x < s;
    }
    if Between(from, s, id) {
      var y: nat :| from <= y < s && y % IDS == id;
      SameIdInCycle(from, x, y);
    }
  }
}

/** The list of skipped ids as a ledger: what is entered is consumed, purged or still
there, and a REPEATED packet passes only by consuming a fresh entry. */
module LostLedger {
  import opened IdFilter

  /** Everything that touches the list. */
  datatype Event =
    | Packet(repeated: bool, id: int, now: int)   // a packet reaches the filter
    | Fragment(id: int, now: int)                 // a part of message `id` arrived, more are missing
    | FragmentTimeout(id: int, now: int)          // a missing part of message `id` is asked for again

  ghost predicate Proper(ev: Event) {
    0 <= ev.id < IDS
  }

  function Apply(st: State, ev: Event): Verdict {
    match ev
    case Packet(repeated, id, now) => Admit(st, repeated, id, now)
    case Fragment(id, now) => Verdict(st.(lost := st.lost[id := now]), true)
    case FragmentTimeout(id, now) => Verdict(if id in st.lost then st else st.(lost := st.lost[id := now]), true)
  }

  // What one event does to the entry of one id.  A gap may purge and enter the same id.

  predicate Consumes(st: State, ev: Event, i: int) {
    ev.Packet? && (ev.repeated || (ev.id < st.next && st.next - ev.id < 100)) && ev.id == i && i in st.lost
  }

  predicate Fills(st: State, ev: Event) {
    ev.Packet? && !ev.repeated && (ev.id > st.next || st.next - ev.id > 100)
  }

  predicate Purges(st: State, ev: Event, i: int) {
    Fills(st, ev) && i in st.lost && Stale(i, st.lost[i], ev.id, ev.now)
  }

  predicate Enters(st: State, ev: Event, i: int) {
    if ev.Packet? then
      Fills(st, ev) && Skipped(i, FillStart(st.next, ev.id), ev.id) && (i in st.lost ==> Purges(st, ev, i))
    else ev.id == i && i !in st.lost
  }

  predicate Refreshes(st: State, ev: Event, i: int) {
    ev.Fragment? && ev.id == i && i in st.lost
  }

  function One(b: bool): nat {
    if b then 1 else 0
  }

  /** Bookkeeping of one event: the entry of `i` afterwards. */
  lemma Balance(st: State, ev: Event, i: int)
    requires Valid(st) && Proper(ev) && 0 <= i < IDS
    ensures var st' := Apply(st, ev).state;
            && Valid(st')
            && One(i in st'.lost) + One(Consumes(st, ev, i)) + One(Purges(st, ev, i)) ==
               One(i in st.lost) + One(Enters(st, ev, i))
            && (i in st'.lost ==>
                  st'.lost[i] == if Enters(st, ev, i) || Refreshes(st, ev, i) then ev.now else st.lost[i])
    ensures ev.Packet? && ev.repeated ==>
              (Apply(st, ev).passed <==> Consumes(st, ev, ev.id) && ev.now - st.lost[ev.id] < 10_000)
  {
    if ev.Packet? {
      AdmitValid(st, ev.repeated, ev.id, ev.now);
    }
  }

  // ---------- runs ----------

  ghost predicate IsRun(evs: seq<Event>, states: seq<State>) {
    && |states| == |evs| + 1 && Valid(states[0])
    && (forall i :: 0 <= i < |evs| ==> Proper(evs[i]))
    && forall i :: 0 <= i < |evs| ==> Apply(states[i], evs[i]).state == states[i + 1]
  }


  ghost function Entered(evs: seq<Event>, states: seq<State>, i: int, n: nat): nat
    requires |states| == |evs| + 1 && n <= |evs|
  {
    if n == 0 then 0 else Entered(evs, states, i, n - 1) + One(Enters(states[n - 1], evs[n - 1], i))
  }

  ghost function Consumed(evs: seq<Event>, states: seq<State>, i: int, n: nat): nat
    requires |states| == |evs| + 1 && n <= |evs|
  {
    if n == 0 then 0 else Consumed(evs, states, i, n - 1) + One(Consumes(states[n - 1], evs[n - 1], i))
  }

  ghost function Purged(evs: seq<Event>, states: seq<State>, i: int, n: nat): nat
    requires |states| == |evs| + 1 && n <= |evs|
  {
    if n == 0 then 0 else Purged(evs, states, i, n - 1) + One(Purges(states[n - 1], evs[n - 1], i))
  }

  /** REPEATED packets with id `i` that passed. */
  ghost function Recovered(evs: seq<Event>, states: seq<State>, i: int, n: nat): nat
    requires |states| == |evs| + 1 && n <= |evs|
  {
    if n == 0 then 0
    else
      var ev := evs[n - 1];
      Recovered(evs, states, i, n - 1) +
      One(ev.Packet? && ev.repeated && ev.id == i && Apply(states[n - 1], ev).passed)
  }

  /** Conservation: in every run, per id, entered = consumed + purged + still there; and
      no more REPEATED packets pass than entries were made. */
  lemma {:induction false} Ledger(evs: seq<Event>, states: seq<State>, i: int, n: nat)
    requires IsRun(evs, states) && 0 <= i < IDS && n <= |evs|
    ensures Valid(states[n])
    ensures One(i in states[0].lost) + Entered(evs, states, i, n) ==
            Consumed(evs, states, i, n) + Purged(evs, states, i, n) + One(i in states[n].lost)
    ensures Recovered(evs, states, i, n) <= Consumed(evs, states, i, n)
  {
    if n > 0 {
      Ledger(evs, states, i, n - 1);
      assert Apply(states[n - 1], evs[n - 1]).state == states[n - 1 + 1];
      Balance(states[n - 1], evs[n - 1], i);
    }
  }

  /** The entry of `i` after `n` events was entered or refreshed at `j` and not touched since. */
  ghost predicate StampedAt(evs: seq<Event>, states: seq<State>, i: int, n: nat, j: nat)
    requires |states| == |evs| + 1 && n <= |evs|
  {
    && j < n && i in states[n].lost && states[n].lost[i] == evs[j].now
    && (Enters(states[j], evs[j], i) || Refreshes(states[j], evs[j], i))
    && forall k :: j < k < n ==> !Consumes(states[k], evs[k], i) && !Purges(states[k], evs[k], i)
  }

  /** Where the entry of `i` after one more event has its stamp from. */
  lemma StampStep(st: State, ev: Event, st': State, i: int)
    requires Valid(st) && Proper(ev) && 0 <= i < IDS
    requires Apply(st, ev).state == st' && i in st'.lost
    ensures || (st'.lost[i] == ev.now && (Enters(st, ev, i) || Refreshes(st, ev, i)))
            || (i in st.lost && st'.lost[i] == st.lost[i] && !Consumes(st, ev, i) && !Purges(st, ev, i))
  {
    Balance(st, ev, i);
  }

  lemma {:induction false} StampOrigin(evs: seq<Event>, states: seq<State>, i: int, n: nat) returns (j: nat)
    requires IsRun(evs, states) && 0 <= i < IDS && n <= |evs|
    requires i !in states[0].lost && i in states[n].lost
    ensures StampedAt(evs, states, i, n, j)
  {
    var m := n - 1;
    Ledger(evs, states, i, m);
    StampStep(states[m], evs[m], states[m + 1], i);
    if states[n].lost[i] == evs[m].now && (Enters(states[m], evs[m], i) || Refreshes(states[m], evs[m], i)) {
      j := m;
    } else {
      j := StampOrigin(evs, states, i, m);
      StampExtends(evs, states, i, m, j);
    }
  }

  lemma StampExtends(evs: seq<Event>, states: seq<State>, i: int, m: nat, j: nat)
    requires |states| == |evs| + 1 && m < |evs| && StampedAt(evs, states, i, m, j)
    requires i in states[m + 1].lost && states[m + 1].lost[i] == states[m].lost[i]
    requires !Consumes(states[m], evs[m], i) && !Purges(states[m], evs[m], i)
    ensures StampedAt(evs, states, i, m + 1, j)
  {
  }

  /** A REPEATED packet that passes consumes an entry that was entered or refreshed less
      than 10 s before and has been there ever since. */
  lemma RecoveredIsFresh(evs: seq<Event>, states: seq<State>, n: nat) returns (j: nat)
    requires IsRun(evs, states) && n < |evs| && evs[n].Packet? && evs[n].repeated
    requires evs[n].id !in states[0].lost && Apply(states[n], evs[n]).passed
    ensures StampedAt(evs, states, evs[n].id, n, j) && evs[n].now - evs[j].now < LIFETIME
    ensures Consumes(states[n], evs[n], evs[n].id) && evs[n].id !in states[n + 1].lost
  {
    Ledger(evs, states, evs[n].id, n);
    Balance(states[n], evs[n], evs[n].id);
    assert Apply(states[n], evs[n]).state == states[n + 1];
    j := StampOrigin(evs, states, evs[n].id, n);
  }
}

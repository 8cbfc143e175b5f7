/** A map ordered by time, as the sequence its iterator runs through. */
module TimeMap {

  datatype Entry<T> = Entry(time: int, value: T)

  ghost predicate Ascending<T>(m: seq<Entry<T>>) {
    forall i, j :: 0 <= i < j < |m| ==> m[i].time < m[j].time
  }

  predicate HasTime<T>(m: seq<Entry<T>>, time: int) {
    exists i :: 0 <= i < |m| && m[i].time == time
  }

  /** `emplace`: a time that is taken is left as it is. */
  function Emplace<T>(m: seq<Entry<T>>, e: Entry<T>): seq<Entry<T>> {
    if m == [] || e.time < m[0].time then [e] + m
    else if e.time == m[0].time then m
    else [m[0]] + Emplace(m[1..], e)
  }

  lemma {:induction false} EmplaceKeepsOrder<T>(m: seq<Entry<T>>, e: Entry<T>)
    requires Ascending(m)
    ensures Ascending(Emplace(m, e))
    ensures forall x :: x in Emplace(m, e) ==> x in m || x == e
  {
    if m != [] && m[0].time < e.time {
      EmplaceKeepsOrder(m[1..], e);
      var r := Emplace(m[1..], e);
      forall i | 0 <= i < |r|
        ensures m[0].time < r[i].time
      {
        assert r[i] in r;
      }
    }
  }

  /** The entry is taken in exactly if its time is free; the others stay. */
  lemma {:induction false} EmplaceContents<T>(m: seq<Entry<T>>, e: Entry<T>)
    requires Ascending(m)
    ensures if HasTime(m, e.time) then Emplace(m, e) == m
            else multiset(Emplace(m, e)) == multiset(m) + multiset{e}
  {
    if m == [] {
    } else if e.time < m[0].time {
      assert !HasTime(m, e.time);
    } else if m[0].time < e.time {
      EmplaceContents(m[1..], e);
      EmplaceBehind(m[0], m[1..], e);
      assert m == [m[0]] + m[1..];
    }
  }

  lemma EmplaceBehind<T>(x: Entry<T>, m: seq<Entry<T>>, e: Entry<T>)
    requires x.time < e.time
    requires if HasTime(m, e.time) then Emplace(m, e) == m else multiset(Emplace(m, e)) == multiset(m) + multiset{e}
    ensures HasTime([x] + m, e.time) <==> HasTime(m, e.time)
    ensures Emplace([x] + m, e) == [x] + Emplace(m, e)
    ensures if HasTime([x] + m, e.time) then Emplace([x] + m, e) == [x] + m
            else multiset(Emplace([x] + m, e)) == multiset([x] + m) + multiset{e}
  {
    assert ([x] + m)[1..] == m;
    HasTimeTail([x] + m, e.time);
    ConsMultiset(x, m);
    ConsMultiset(x, Emplace(m, e));
  }

  lemma ConsMultiset<T>(x: T, s: seq<T>)
    ensures multiset([x] + s) == multiset{x} + multiset(s)
  {
  }

  lemma HasTimeTail<T>(m: seq<Entry<T>>, time: int)
    requires m != [] && m[0].time != time
    ensures HasTime(m, time) <==> HasTime(m[1..], time)
  {
    var tail := m[1..];
    if HasTime(m, time) {
      var i :| 0 <= i < |m| && m[i].time == time;
      assert tail[i - 1].time == time;
    }
    if HasTime(tail, time) {
      var i :| 0 <= i < |tail| && tail[i].time == time;
      assert m[i + 1].time == time;
    }
  }

  /** The front entry is due: it comes first among the due ones, and the rest is as before. */
  lemma DueStep<T>(m: seq<Entry<T>>, limit: int)
    requires m != [] && m[0].time <= limit
    ensures var k := Due(m[1..], limit);
            && Due(m, limit) == k + 1 && m[1..][k..] == m[k + 1..] && [m[0]] + m[1..][..k] == m[..k + 1]
  {
  }

  ghost predicate AllBy<T>(m: seq<Entry<T>>, limit: int) {
    forall i :: 0 <= i < |m| ==> m[i].time <= limit
  }

  /** How many entries at the front are due at `limit`. */
  function Due<T>(m: seq<Entry<T>>, limit: int): (k: nat)
    ensures k <= |m|
    ensures AllBy(m[..k], limit)
    ensures k < |m| ==> limit < m[k].time
  {
    if m == [] || limit < m[0].time then 0
    else
      var k := Due(m[1..], limit);
      assert m[..k + 1] == [m[0]] + m[1..][..k];
      k + 1
  }

  /** The entries in front of the limit are the due ones. */
  lemma DueSplits<T>(m: seq<Entry<T>>, limit: int, t: Entry<T>)
    requires Ascending(m) && t in m
    ensures t in m[..Due(m, limit)] <==> t.time <= limit
    ensures t in m[Due(m, limit)..] <==> limit < t.time
  {
    var k := Due(m, limit);
    forall i | k <= i < |m|
      ensures limit < m[i].time
    {
      assert m[k].time <= m[i].time;
    }
    assert t in m[..k] ==> t.time <= limit;
    assert m == m[..k] + m[k..];
  }

  lemma {:induction false} DueExactly<T>(m: seq<Entry<T>>, limit: int, k: nat)
    requires k <= |m| && AllBy(m[..k], limit)
    requires k < |m| ==> limit < m[k].time
    ensures Due(m, limit) == k
  {
    if k > 0 {
      var tail := m[1..][..k - 1];
      assert m[..k] == [m[0]] + tail;
      assert AllBy(tail, limit) by {
        forall i | 0 <= i < |tail|
          ensures tail[i].time <= limit
        {
          assert tail[i] == m[..k][i + 1];
        }
      }
      assert m[..k][0].time <= limit;
      DueExactly(m[1..], limit, k - 1);
    }
  }
}

/** The list of byte ranges a fragmented message still misses, as values.

A part is a half-open range [first, second).  `Cut` says what is left of a list
of parts when the range [start, end) has arrived; it is defined part by part,
with no reference to the order in which a program would walk the list.
 */
module Parts {

  datatype Part = Part(first: nat, second: nat) {
    predicate Has(b: int) {
      first <= b < second
    }
  }

  /** Byte `b` is still missing. */
  ghost predicate Missing(parts: seq<Part>, b: int) {
    exists p :: p in parts && p.Has(b)
  }

  /** Ascending, no empty part, and a received byte between neighbours. */
  ghost predicate WellFormed(parts: seq<Part>) {
    && (forall i :: 0 <= i < |parts| ==> parts[i].first < parts[i].second)
    && (forall i, j :: 0 <= i < j < |parts| ==> parts[i].second < parts[j].first)
  }

  ghost predicate EndBelow(parts: seq<Part>, limit: nat) {
    forall p :: p in parts ==> p.second < limit
  }

  /** Some part starts before `end`, reaches `start`, and goes on after `end`. */
  ghost predicate Straddled(parts: seq<Part>, start: nat, end: nat) {
    exists p :: p in parts && p.first < end < p.second && start <= p.second
  }

  /** What remains of one part once [start, end) has arrived. */
  function CutPart(p: Part, start: nat, end: nat): seq<Part> {
    if end <= p.first || start > p.second then [p]
    else
      (if p.first < start then [Part(p.first, start)] else []) +
      (if end < p.second then [Part(end, p.second)] else [])
  }

  function Cut(parts: seq<Part>, start: nat, end: nat): seq<Part> {
    if parts == [] then [] else CutPart(parts[0], start, end) + Cut(parts[1..], start, end)
  }

  /** Parts that lie wholly outside the range are kept as they are. */
  lemma {:induction false} CutOutside(parts: seq<Part>, start: nat, end: nat)
    requires forall p :: p in parts ==> end <= p.first || start > p.second
    ensures Cut(parts, start, end) == parts
  {
    if parts != [] {
      CutOutside(parts[1..], start, end);
      assert parts == [parts[0]] + parts[1..];
    }
  }

  /** The start of the range may be moved up to a point below every part. */
  lemma {:induction false} CutRaiseStart(parts: seq<Part>, start: nat, start': nat, end: nat)
    requires forall p :: p in parts ==> start <= p.first && start' <= p.first && p.first <= p.second
    ensures Cut(parts, start, end) == Cut(parts, start', end)
  {
    if parts != [] {
      assert parts[0] in parts;
      CutRaiseStart(parts[1..], start, start', end);
    }
  }

  /** Where a part of the result comes from. */
  lemma {:induction false} CutMember(parts: seq<Part>, start: nat, end: nat, q: Part)
    ensures q in Cut(parts, start, end) <==>
            exists p :: p in parts && q in CutPart(p, start, end)
  {
    if parts != [] {
      CutMember(parts[1..], start, end, q);
      assert parts == [parts[0]] + parts[1..];
    }
  }

  lemma MissingConcat(a: seq<Part>, b: seq<Part>, x: int)
    ensures Missing(a + b, x) <==> Missing(a, x) || Missing(b, x)
  {
  }

  lemma CutPartMissing(p: Part, start: nat, end: nat, x: int)
    ensures Missing(CutPart(p, start, end), x) <==> p.Has(x) && !(start <= x < end)
  {
    var cut := CutPart(p, start, end);
    if p.Has(x) && !(start <= x < end) {
      if end <= p.first || start > p.second {
        assert p in cut;
      } else if x < start {
        assert Part(p.first, start) in cut;
      } else {
        assert Part(end, p.second) in cut;
      }
    }
  }

  /** Interval subtraction: exactly the bytes of [start, end) stop being missing. */
  lemma {:induction false} CutMissing(parts: seq<Part>, start: nat, end: nat, x: int)
    ensures Missing(Cut(parts, start, end), x) <==> Missing(parts, x) && !(start <= x < end)
  {
    if parts != [] {
      CutMissing(parts[1..], start, end, x);
      CutPartMissing(parts[0], start, end, x);
      MissingConcat(CutPart(parts[0], start, end), Cut(parts[1..], start, end), x);
      MissingConcat([parts[0]], parts[1..], x);
      assert parts == [parts[0]] + parts[1..];
      assert Missing([parts[0]], x) <==> parts[0].Has(x) by {
        assert parts[0] in [parts[0]];
      }
    }
  }

  /** Every piece of the result lies inside the part it was cut from. */
  lemma CutBounds(parts: seq<Part>, start: nat, end: nat, lo: nat)
    requires WellFormed(parts)
    requires forall p :: p in parts ==> lo < p.first
    ensures forall q :: q in Cut(parts, start, end) ==> lo < q.first && q.first < q.second
  {
    forall q | q in Cut(parts, start, end)
      ensures lo < q.first && q.first < q.second
    {
      CutMember(parts, start, end, q);
    }
  }

  lemma CutEndsBelow(parts: seq<Part>, start: nat, end: nat, limit: nat)
    requires EndBelow(parts, limit)
    ensures EndBelow(Cut(parts, start, end), limit)
  {
    forall q | q in Cut(parts, start, end)
      ensures q.second < limit
    {
      CutMember(parts, start, end, q);
    }
  }

  lemma WellFormedTail(parts: seq<Part>)
    requires WellFormed(parts) && parts != []
    ensures WellFormed(parts[1..])
    ensures forall p :: p in parts[1..] ==> parts[0].second < p.first
  {
  }

  lemma WellFormedConcat(a: seq<Part>, b: seq<Part>, mid: nat)
    requires WellFormed(a) && WellFormed(b)
    requires forall p :: p in a ==> p.second <= mid
    requires forall p :: p in b ==> mid < p.first
    ensures WellFormed(a + b)
  {
    var c := a + b;
    forall i, j | 0 <= i < j < |c|
      ensures c[i].second < c[j].first
    {
      if i < |a| && j >= |a| {
        assert c[i] in a && c[j] in b;
      }
    }
  }

  lemma CutPartWellFormed(p: Part, start: nat, end: nat)
    requires p.first < p.second
    requires start < end || !Straddled([p], start, end)
    ensures WellFormed(CutPart(p, start, end))
    ensures forall q :: q in CutPart(p, start, end) ==> q.second <= p.second
  {
    assert p in [p];
  }

  /** A range keeps the list well formed if it is proper or misses every part. */
  lemma {:induction false} CutWellFormed(parts: seq<Part>, start: nat, end: nat)
    requires WellFormed(parts)
    requires start < end || !Straddled(parts, start, end)
    ensures WellFormed(Cut(parts, start, end))
  {
    if parts != [] {
      var p := parts[0];
      assert p in parts;
      WellFormedTail(parts);
      CutWellFormed(parts[1..], start, end);
      CutBounds(parts[1..], start, end, p.second);
      CutPartWellFormed(p, start, end);
      WellFormedConcat(CutPart(p, start, end), Cut(parts[1..], start, end), p.second);
    }
  }

  /** An empty or reversed range that falls inside a part damages the list. */
  lemma CutBreaksWellFormed(parts: seq<Part>, start: nat, end: nat)
    requires WellFormed(parts)
    requires end <= start && Straddled(parts, start, end)
    ensures !WellFormed(Cut(parts, start, end))
  {
    var p :| p in parts && p.first < end < p.second && start <= p.second;
    var c := Cut(parts, start, end);
    var l, r := Part(p.first, start), Part(end, p.second);
    assert CutPart(p, start, end) == [l, r];
    assert l in CutPart(p, start, end) && r in CutPart(p, start, end);
    CutMember(parts, start, end, l);
    CutMember(parts, start, end, r);
    var i :| 0 <= i < |c| && c[i] == l;
    var j :| 0 <= j < |c| && c[j] == r;
    assert i != j;
  }

  /** A list that misses nothing is empty. */
  lemma NothingMissing(a: seq<Part>)
    requires WellFormed(a)
    requires forall x: int :: !Missing(a, x)
    ensures a == []
  {
    if a != [] {
      assert a[0] in a && a[0].Has(a[0].first);
      assert Missing(a, a[0].first);
    }
  }

  /** Canonical form: a well formed list is determined by the bytes it misses. */
  lemma {:induction false} Canonical(a: seq<Part>, b: seq<Part>)
    requires WellFormed(a) && WellFormed(b)
    requires forall x: int :: Missing(a, x) <==> Missing(b, x)
    ensures a == b
  {
    if a == [] {
      NothingMissing(b);
    } else if b == [] {
      NothingMissing(a);
    } else {
      SameHead(a, b);
      SameHead(b, a);
      WellFormedTail(a);
      WellFormedTail(b);
      forall x: int
        ensures Missing(a[1..], x) <==> Missing(b[1..], x)
      {
        MissingTail(a, x);
        MissingTail(b, x);
      }
      Canonical(a[1..], b[1..]);
      assert a == [a[0]] + a[1..];
      assert b == [b[0]] + b[1..];
    }
  }

  lemma MissingTail(a: seq<Part>, x: int)
    requires WellFormed(a) && a != []
    ensures Missing(a[1..], x) <==> Missing(a, x) && !a[0].Has(x)
  {
    assert a == [a[0]] + a[1..];
    WellFormedTail(a);
  }

  /** First missing byte and first received byte after it agree, one direction. */
  lemma SameHead(a: seq<Part>, b: seq<Part>)
    requires WellFormed(a) && WellFormed(b) && a != [] && b != []
    requires forall x: int :: Missing(a, x) <==> Missing(b, x)
    ensures b[0].first <= a[0].first
    ensures a[0].first == b[0].first ==> b[0].second >= a[0].second
  {
    assert a[0] in a && a[0].Has(a[0].first);
    assert Missing(a, a[0].first);
    var p :| p in b && p.Has(a[0].first);
    assert b[0].first <= p.first;
    if a[0].first == b[0].first && b[0].second < a[0].second {
      assert a[0].Has(b[0].second);
      assert Missing(a, b[0].second);
    }
  }
}

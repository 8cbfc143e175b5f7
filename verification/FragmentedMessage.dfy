/** Reassembly of one message from the fragments that arrive. */
module FragmentedMessage {
  import opened Bytes
  import opened Parts

  const MAX_UDP_PACKET_SIZE := 65507
  const MAX_PACKET_DATA_SIZE := MAX_UDP_PACKET_SIZE - 17
  const MAX_MESSAGE_DATA_SIZE := MAX_PACKET_DATA_SIZE / 2

  /** End of a fragment in the 32-bit arithmetic of the receiver. */
  function FragmentEnd(pos: uint32, len: nat): uint32 {
    (pos + len) % 0x1_0000_0000
  }

  /** The part to ask for next: the front of the missing bytes, at most `window` long. */
  function NextPart(parts: seq<Part>, window: nat): (r: (nat, nat))
    requires WellFormed(parts)
    ensures parts == [] ==> r == (0, 0)
    ensures parts != [] && window > 0 ==> 0 < r.1 <= window
    ensures forall b: int :: r.0 <= b < r.0 + r.1 ==> Missing(parts, b)
    ensures forall b: int :: Missing(parts, b) ==> r.0 <= b
    ensures parts != [] && r.1 < window ==> !Missing(parts, r.0 + r.1)
  {
    if parts == [] then (0, 0)
    else
      var part := parts[0];
      assert part in parts;
      assert forall b: int :: part.first <= b < part.second ==> part.Has(b);
      (part.first, if part.second - part.first > window then window else part.second - part.first)
  }

  /** A fragment that can be received keeps the list in its form and removes exactly its
      bytes, whether or not its end wraps. */
  lemma FragmentKeepsForm(parts: seq<Part>, pos: uint32, len: nat)
    requires WellFormed(parts) && EndBelow(parts, MAX_MESSAGE_SIZE) && 0 < len < 0x8000_0000
    ensures var cut := Cut(parts, pos, FragmentEnd(pos, len));
            && WellFormed(cut) && EndBelow(cut, MAX_MESSAGE_SIZE)
            && (forall b: int :: Missing(cut, b) <==> Missing(parts, b) && !(pos <= b < pos + len))
            && (pos + len >= 0x1_0000_0000 ==> cut == parts)
  {
    var end := FragmentEnd(pos, len);
    CutEndsBelow(parts, pos, end, MAX_MESSAGE_SIZE);
    if pos + len < 0x1_0000_0000 {
      assert end == pos + len;
      CutSummary(parts, pos, end);
    } else {
      CutOutside(parts, pos, end);
    }
  }

  /** Fragments as (position, length) pairs, received one after the other. */
  function CutAll(parts: seq<Part>, fragments: seq<(nat, nat)>): seq<Part> {
    if fragments == [] then parts
    else
      var last := |fragments| - 1;
      Cut(CutAll(parts, fragments[..last]), fragments[last].0, fragments[last].0 + fragments[last].1)
  }

  ghost predicate Covered(fragments: seq<(nat, nat)>, b: int) {
    exists f :: f in fragments && f.0 <= b < f.0 + f.1
  }

  /** After any fragments, in any order, exactly the bytes none of them carries are missing. */
  lemma {:induction false} CutAllMissing(parts: seq<Part>, fragments: seq<(nat, nat)>)
    requires WellFormed(parts)
    requires forall f :: f in fragments ==> f.1 > 0
    ensures WellFormed(CutAll(parts, fragments))
    ensures forall b: int ::
              Missing(CutAll(parts, fragments), b) <==> Missing(parts, b) && !Covered(fragments, b)
  {
    if fragments != [] {
      var last := |fragments| - 1;
      var init, f := fragments[..last], fragments[last];
      assert fragments == init + [f];
      assert f in fragments && forall g :: g in init ==> g in fragments;
      CutAllMissing(parts, init);
      CutSummary(CutAll(parts, init), f.0, f.0 + f.1);
      forall b: int
        ensures Covered(fragments, b) <==> Covered(init, b) || f.0 <= b < f.0 + f.1
      {
      }
    }
  }

  /** Confluence: the list of missing parts depends only on the union of the fragments. */
  lemma Confluence(parts: seq<Part>, one: seq<(nat, nat)>, other: seq<(nat, nat)>)
    requires WellFormed(parts)
    requires forall f :: f in one || f in other ==> f.1 > 0
    requires forall b: int :: Missing(parts, b) ==> (Covered(one, b) <==> Covered(other, b))
    ensures CutAll(parts, one) == CutAll(parts, other)
  {
    CutAllMissing(parts, one);
    CutAllMissing(parts, other);
    Canonical(CutAll(parts, one), CutAll(parts, other));
  }

  /** Reordering and duplication, as a network may do, change nothing. */
  lemma ReorderingAndDuplication(parts: seq<Part>, one: seq<(nat, nat)>, other: seq<(nat, nat)>)
    requires WellFormed(parts)
    requires forall f :: f in one ==> f.1 > 0
    requires forall f :: f in one <==> f in other
    ensures CutAll(parts, one) == CutAll(parts, other)
  {
    Confluence(parts, one, other);
  }

  class FragmentedMessage {
    const id: byte
    const cmd: byte
    var maxFragmentSize: nat
    var device: seq<byte>
    var lastPartTime: int
    var partVect: seq<Part>

    ghost predicate Valid()
      reads this
    {
      WellFormed(partVect) && EndBelow(partVect, MAX_MESSAGE_SIZE)
    }

    constructor (id: byte, cmd: byte, maxFragmentSize: nat, fullSize: nat)
      ensures this.id == id && this.cmd == cmd && this.maxFragmentSize == maxFragmentSize
      ensures device == [] && partVect == [Part(0, fullSize)]
      ensures 0 < fullSize < MAX_MESSAGE_SIZE ==> Valid()
      ensures forall b: int :: Missing(partVect, b) <==> 0 <= b < fullSize
    {
      this.id, this.cmd, this.maxFragmentSize := id, cmd, maxFragmentSize;
      device, lastPartTime, partVect := [], 0, [Part(0, fullSize)];
      new;
      assert Part(0, fullSize) in partVect;
    }

    /** Handles the part at `it`, which the new part reaches: cuts, splits or erases it. */
    method CutAt(it: nat, newPartStart: nat, newPartEnd: nat) returns (it': nat, start': nat, done: bool)
      requires it < |partVect| && partVect[it].first < partVect[it].second
      requires partVect[it].first < newPartEnd && newPartStart <= partVect[it].second
      modifies this`partVect
      ensures partVect == old(partVect[..it]) +
                          CutPart(old(partVect[it]), newPartStart, newPartEnd) + old(partVect[it + 1..])
      ensures done <==> newPartEnd <= old(partVect[it].second)
      ensures !done ==> start' == old(partVect[it].second)
      ensures !done ==> it' == it + |CutPart(old(partVect[it]), newPartStart, newPartEnd)|
    {
      it', start', done := it, newPartStart, false;
      var part := partVect[it];
      if newPartStart < part.first {
        if newPartEnd > part.second {
          start' := part.second;
          partVect := partVect[..it] + partVect[it + 1..];
        } else {
          partVect := partVect[it := part.(first := newPartEnd)];
          if partVect[it].first == partVect[it].second {
            partVect := partVect[..it] + partVect[it + 1..];
          }
          done := true;
        }
      } else if newPartStart > part.first {
        var currentEnd := part.second;
        partVect := partVect[it := part.(second := newPartStart)];
        if newPartEnd > currentEnd {
          start' := currentEnd;
          it' := it + 1;
        } else {
          if newPartEnd < currentEnd {
            partVect := partVect[..it + 1] + [Part(newPartEnd, currentEnd)] + partVect[it + 1..];
          }
          done := true;
        }
      } else {
        if newPartEnd > part.second {
          start' := part.second;
          partVect := partVect[..it] + partVect[it + 1..];
        } else if newPartEnd < part.second {
          partVect := partVect[it := part.(first := newPartEnd)];
          done := true;
        } else {
          partVect := partVect[..it] + partVect[it + 1..];
          done := true;
        }
      }
    }

    /** Walks the list once, cutting, splitting and erasing parts in place. */
    method WalkPartVect(newPartStart: nat, newPartEnd: nat)
      requires Valid()
      modifies this`partVect
      ensures partVect == Cut(old(partVect), newPartStart, newPartEnd)
    {
      var start: nat, it := newPartStart, 0;
      assert Outcome(partVect, it, start, newPartEnd) == Cut(partVect, newPartStart, newPartEnd) by {
        assert partVect[0..] == partVect;
      }
      while it < |partVect|
        invariant 0 <= it <= |partVect| && WellFormed(partVect[it..])
        invariant Outcome(partVect, it, start, newPartEnd) == Cut(old(partVect), newPartStart, newPartEnd)
        decreases |partVect| - it
      {
        ghost var before, it0, start0 := partVect, it, start;
        if newPartEnd <= partVect[it].first {
          OutcomeReached(before, it, start, newPartEnd);
          return;
        }
        if start > partVect[it].second {
          it := it + 1;
          OutcomeSkip(before, it0, start0, newPartEnd);
        } else {
          var done;
          it, start, done := CutAt(it, start, newPartEnd);
          OutcomeKept(before, it0, start0, newPartEnd, partVect);
          if done {
            return;
          }
        }
      }
      assert partVect[..it] == partVect;
    }

    method RemoveFromPartVect(newPartStart: nat, newPartEnd: nat)
      requires Valid()
      modifies this`partVect
      ensures partVect == Cut(old(partVect), newPartStart, newPartEnd)
      ensures forall b: int ::
                Missing(partVect, b) <==> Missing(old(partVect), b) && !(newPartStart <= b < newPartEnd)
      ensures Valid() <==> newPartStart < newPartEnd || !Straddled(old(partVect), newPartStart, newPartEnd)
    {
      CutSummary(partVect, newPartStart, newPartEnd);
      CutEndsBelow(partVect, newPartStart, newPartEnd, MAX_MESSAGE_SIZE);
      WalkPartVect(newPartStart, newPartEnd);
    }

    /** Takes in `data` for position `pos`; a byte array has less than 2^31 bytes.  The end
        of the fragment wraps at 32 bits, but then the fragment lies behind every part. */
    method AddData(pos: uint32, data: seq<byte>)
      requires Valid()
      modifies this`partVect, this`device
      ensures partVect == Cut(old(partVect), pos, FragmentEnd(pos, |data|))
      ensures device == WriteAt(old(device), pos, data)
      ensures 0 < |data| < 0x8000_0000 ==>
                Valid() && forall b: int ::
                  Missing(partVect, b) <==> Missing(old(partVect), b) && !(pos <= b < pos + |data|)
    {
      var end := FragmentEnd(pos, |data|);
      if 0 < |data| < 0x8000_0000 {
        FragmentKeepsForm(partVect, pos, |data|);
      }
      RemoveFromPartVect(pos, end);
      device := WriteAt(device, pos, data);
    }

    predicate IsPartsEmpty()
      requires Valid()
      reads this
      ensures IsPartsEmpty() <==> forall b: int :: !Missing(partVect, b)
    {
      assert partVect != [] ==> partVect[0] in partVect && partVect[0].Has(partVect[0].first)
                                && Missing(partVect, partVect[0].first);
      partVect == []
    }

    function GetNextPart(): (r: (nat, nat))
      requires Valid()
      reads this
      ensures maxFragmentSize > 0 && partVect != [] ==> r.1 > 0
      ensures r.1 <= maxFragmentSize
      ensures forall b: int :: r.0 <= b < r.0 + r.1 ==> Missing(partVect, b)
    {
      NextPart(partVect, maxFragmentSize)
    }
  }

  /** What the list becomes if the parts from index `it` on are still to be cut. */
  ghost function Outcome(parts: seq<Part>, it: nat, start: nat, end: nat): seq<Part>
    requires it <= |parts|
  {
    parts[..it] + Cut(parts[it..], start, end)
  }

  lemma OutcomeReached(parts: seq<Part>, it: nat, start: nat, end: nat)
    requires it < |parts| && WellFormed(parts[it..]) && end <= parts[it].first
    ensures Outcome(parts, it, start, end) == parts
  {
    var rest := parts[it..];
    forall p | p in rest
      ensures end <= p.first
    {
      assert p != rest[0] ==> rest[0].second < p.first;
    }
    CutOutside(rest, start, end);
    assert parts == parts[..it] + rest;
  }

  lemma OutcomeSkip(parts: seq<Part>, it: nat, start: nat, end: nat)
    requires it < |parts| && WellFormed(parts[it..]) && start > parts[it].second
    ensures WellFormed(parts[it + 1..])
    ensures Outcome(parts, it + 1, start, end) == Outcome(parts, it, start, end)
  {
    var rest := parts[it..];
    WellFormedTail(rest);
    assert rest[1..] == parts[it + 1..] && parts[..it + 1] == parts[..it] + [rest[0]];
  }

  lemma CutHead(rest: seq<Part>, start: nat, end: nat)
    requires WellFormed(rest) && rest != [] && start <= rest[0].second
    ensures Cut(rest, start, end) == CutPart(rest[0], start, end) + Cut(rest[1..], rest[0].second, end)
    ensures end <= rest[0].second ==> Cut(rest[1..], rest[0].second, end) == rest[1..]
  {
    WellFormedTail(rest);
    CutRaiseStart(rest[1..], start, rest[0].second, end);
    if end <= rest[0].second {
      CutOutside(rest[1..], rest[0].second, end);
    }
  }

  lemma Splice<T>(head: seq<T>, cut: seq<T>, tail: seq<T>, tail': seq<T>)
    ensures (head + cut + tail)[..|head| + |cut|] == head + cut
    ensures (head + cut + tail)[|head| + |cut|..] == tail
    ensures head + cut + tail' == head + (cut + tail')
  {
  }

  lemma OutcomeKept(parts: seq<Part>, it: nat, start: nat, end: nat, parts': seq<Part>)
    requires it < |parts| && WellFormed(parts[it..])
    requires start <= parts[it].second
    requires parts' == parts[..it] + CutPart(parts[it], start, end) + parts[it + 1..]
    ensures end <= parts[it].second ==> parts' == Outcome(parts, it, start, end)
    ensures var it' := it + |CutPart(parts[it], start, end)|;
            WellFormed(parts'[it'..]) &&
            Outcome(parts', it', parts[it].second, end) == Outcome(parts, it, start, end)
  {
    var rest := parts[it..];
    assert rest[1..] == parts[it + 1..];
    WellFormedTail(rest);
    CutHead(rest, start, end);
    Splice(parts[..it], CutPart(parts[it], start, end), rest[1..], Cut(rest[1..], parts[it].second, end));
  }

  lemma CutSummary(parts: seq<Part>, start: nat, end: nat)
    requires WellFormed(parts)
    ensures forall b: int :: Missing(Cut(parts, start, end), b) <==> Missing(parts, b) && !(start <= b < end)
    ensures WellFormed(Cut(parts, start, end)) <==> start < end || !Straddled(parts, start, end)
  {
    forall b: int
      ensures Missing(Cut(parts, start, end), b) <==> Missing(parts, b) && !(start <= b < end)
    {
      CutMissing(parts, start, end, b);
    }
    if start < end || !Straddled(parts, start, end) {
      CutWellFormed(parts, start, end);
    } else {
      CutBreaksWellFormed(parts, start, end);
    }
  }
}

/** The receiver's side of a fragmented message: what a FRAGMENT packet does to the
entry kept for its id, and when the message is complete. */
module Reassembly {
  import opened Bytes
  import opened Options
  import opened Parts
  import opened FragmentedMessage
  import opened Packets

  const MIN_WINDOW := 128

  datatype Entry = Entry(window: nat, device: seq<byte>, parts: seq<Part>)
  datatype Reaction = Reaction(entry: Option<Entry>, delivered: Option<seq<byte>>)

  function FirstWindow(announced: nat): nat {
    if announced == 0 || announced > MAX_PACKET_DATA_SIZE then MAX_MESSAGE_DATA_SIZE else announced
  }

  /** The announced size is the first window unless it is missing or more than a packet can
      carry; then it is 32745. */
  lemma FirstWindowIs(announced: nat)
    ensures FirstWindow(announced) == if 1 <= announced <= 65490 then announced else 32745
  {
  }

  function NewEntry(a: Announcement): Entry {
    Entry(FirstWindow(a.window), [], [Part(0, a.fullSize)])
  }

  /** The window grows by a fifth up to a limit with every fragment ... */
  function Grow(window: nat): nat {
    if window < MAX_MESSAGE_DATA_SIZE then Min(window + window / 5, MAX_MESSAGE_DATA_SIZE) else window
  }

  /** ... and is halved down to a limit on a timeout. */
  function Shrink(window: nat): nat {
    if window / 2 < MIN_WINDOW then MIN_WINDOW else window / 2
  }

  function Absorb(e: Entry, pos: uint32, data: seq<byte>): Entry {
    if data == [] then e
    else e.(parts := Cut(e.parts, pos, FragmentEnd(pos, |data|)), device := WriteAt(e.device, pos, data))
  }

  function OnFragment(entry: Option<Entry>, a: Announcement, data: seq<byte>): Reaction {
    if a.fullSize >= MAX_MESSAGE_SIZE then Reaction(None, None)
    else
      var e := Absorb(if entry.Some? then entry.value else NewEntry(a), a.pos, data);
      if e.parts == [] then Reaction(None, Some(e.device))
      else Reaction(Some(e.(window := Grow(e.window))), None)
  }

  ghost function EntryOf(msg: FragmentedMessage): Entry
    reads msg
  {
    Entry(msg.maxFragmentSize, msg.device, msg.partVect)
  }

  /** The branch of the receiver that runs once the entry of a fragment is found. */
  method AbsorbFragment(msg: FragmentedMessage, a: Announcement, data: seq<byte>, now: int)
    returns (delivered: Option<seq<byte>>, query: (nat, nat))
    requires msg.Valid() && a.fullSize < MAX_MESSAGE_SIZE && |data| < 0x8000_0000
    modifies msg
    ensures msg.Valid()
    ensures var r := OnFragment(Some(old(EntryOf(msg))), a, data);
            delivered == r.delivered && (r.entry.Some? ==> EntryOf(msg) == r.entry.value)
    ensures delivered.Some? ==> query == (a.fullSize, msg.maxFragmentSize)
    ensures delivered.None? ==>
              msg.lastPartTime == now && query == NextPart(msg.partVect, msg.maxFragmentSize)
  {
    if data != [] {
      msg.AddData(a.pos, data);
    }
    if msg.IsPartsEmpty() {
      var all: nat := a.fullSize;
      delivered, query := Some(msg.device), (all, msg.maxFragmentSize);
    } else {
      delivered := None;
      msg.lastPartTime := now;
      if msg.maxFragmentSize < MAX_MESSAGE_DATA_SIZE {
        msg.maxFragmentSize := msg.maxFragmentSize + msg.maxFragmentSize / 5;
        if msg.maxFragmentSize > MAX_MESSAGE_DATA_SIZE {
          msg.maxFragmentSize := MAX_MESSAGE_DATA_SIZE;
        }
      }
      query := msg.GetNextPart();
    }
  }

  /** Every byte that is not missing is the byte of the source. */
  ghost predicate Honest(src: seq<byte>, e: Entry) {
    && WellFormed(e.parts) && |e.device| <= |src|
    && (forall b: int :: Missing(e.parts, b) ==> 0 <= b < |src|)
    && (forall b :: 0 <= b < |src| && !Missing(e.parts, b) ==> b < |e.device| && e.device[b] == src[b])
    && 0 < e.window <= MAX_PACKET_DATA_SIZE
  }

  /** A fragment cut from the source, or its announcement. */
  ghost predicate Genuine(src: seq<byte>, a: Announcement, data: seq<byte>) {
    && a.fullSize == |src| && a.pos + |data| <= |src|
    && data == src[a.pos..a.pos + |data|]
  }

  lemma NewEntryHonest(src: seq<byte>, a: Announcement)
    requires a.fullSize == |src| > 0
    ensures Honest(src, NewEntry(a))
  {
    var p := Part(0, |src|);
    assert p in NewEntry(a).parts;
    assert forall b: int :: 0 <= b < |src| ==> p.Has(b);
  }

  lemma AbsorbHonest(src: seq<byte>, e: Entry, a: Announcement, data: seq<byte>)
    requires |src| < 0x1_0000_0000
    requires Honest(src, e) && Genuine(src, a, data)
    ensures Honest(src, Absorb(e, a.pos, data))
  {
    if data != [] {
      var end := FragmentEnd(a.pos, |data|);
      assert end == a.pos + |data|;
      CutSummary(e.parts, a.pos, end);
      WrittenBytes(src, e.device, a.pos, data);
    }
  }

  /** Writing bytes of the source: those bytes are the source's, and others are as before. */
  lemma WrittenBytes(src: seq<byte>, device: seq<byte>, pos: nat, data: seq<byte>)
    requires pos + |data| <= |src| && data == src[pos..pos + |data|]
    ensures var device' := WriteAt(device, pos, data);
            && (forall b :: pos <= b < pos + |data| ==> b < |device'| && device'[b] == src[b])
            && (forall b :: 0 <= b < |device| && !(pos <= b < pos + |data|) ==> device'[b] == device[b])
  {
    var device' := WriteAt(device, pos, data);
    forall b | pos <= b < pos + |data|
      ensures b < |device'| && device'[b] == src[b]
    {
      assert device'[pos + (b - pos)] == data[b - pos];
    }
  }

  /** A message whose parts are all there is the source, byte for byte. */
  lemma CompleteIsSource(src: seq<byte>, e: Entry)
    requires Honest(src, e) && e.parts == []
    ensures e.device == src
  {
    forall b | 0 <= b < |src|
      ensures b < |e.device| && e.device[b] == src[b]
    {
      assert !Missing(e.parts, b);
    }
    if |src| > 0 {
      assert !Missing(e.parts, |src| - 1);
    }
  }

  /** One fragment: the entry stays honest, and a delivery is the source. */
  lemma OnFragmentHonest(src: seq<byte>, entry: Option<Entry>, a: Announcement, data: seq<byte>)
    requires 0 < |src| < 0x1_0000_0000 && Genuine(src, a, data)
    requires entry.Some? ==> Honest(src, entry.value)
    ensures var r := OnFragment(entry, a, data);
            && (r.entry.Some? ==> Honest(src, r.entry.value) && r.entry.value.parts != [])
            && (r.delivered.Some? ==> r.delivered.value == src)
  {
    NewEntryHonest(src, a);
    var e := if entry.Some? then entry.value else NewEntry(a);
    AbsorbHonest(src, e, a, data);
    var e' := Absorb(e, a.pos, data);
    if e'.parts == [] {
      CompleteIsSource(src, e');
    }
  }
}

/** Bytes, unsigned integers and the big-endian forms QDataStream gives them. */
module Bytes {

  newtype byte = b: int | 0 <= b < 0x100
  type uint32 = n: int | 0 <= n < 0x1_0000_0000

  const MAX_MESSAGE_SIZE := 0x8000_0000

  function Min(a: int, b: int): int {
    if a < b then a else b
  }

  function PutU16(n: int): (s: seq<byte>)
    requires 0 <= n < 0x1_0000
    ensures |s| == 2
  {
    [(n / 0x100) as byte, (n % 0x100) as byte]
  }

  function GetU16(s: seq<byte>): (n: int)
    requires |s| == 2
    ensures 0 <= n < 0x1_0000
  {
    s[0] as int * 0x100 + s[1] as int
  }

  function PutU32(n: uint32): (s: seq<byte>)
    ensures |s| == 4
  {
    [(n / 0x100_0000) as byte, (n / 0x1_0000 % 0x100) as byte, (n / 0x100 % 0x100) as byte, (n % 0x100) as byte]
  }

  function GetU32(s: seq<byte>): uint32
    requires |s| == 4
  {
    ((s[0] as int * 0x100 + s[1] as int) * 0x100 + s[2] as int) * 0x100 + s[3] as int
  }

  lemma U16RoundTrip(n: int)
    requires 0 <= n < 0x1_0000
    ensures GetU16(PutU16(n)) == n
  {
  }

  lemma U32RoundTrip(n: uint32)
    ensures GetU32(PutU32(n)) == n
  {
    var a, b, c := n / 0x100, n / 0x1_0000, n / 0x100_0000;
    assert b == a / 0x100 && c == b / 0x100;
  }

  lemma U16Bytes(s: seq<byte>)
    requires |s| == 2
    ensures PutU16(GetU16(s)) == s
  {
  }

  lemma U32Bytes(s: seq<byte>)
    requires |s| == 4
    ensures PutU32(GetU32(s)) == s
  {
    var a := s[0] as int * 0x100 + s[1] as int;
    var b := a * 0x100 + s[2] as int;
    var n := b * 0x100 + s[3] as int;
    QuotientAndRemainder(s[0] as int, s[1] as int);
    QuotientAndRemainder(a, s[2] as int);
    QuotientAndRemainder(b, s[3] as int);
    Shifts(n);
  }

  lemma QuotientAndRemainder(q: nat, r: nat)
    requires r < 0x100
    ensures (q * 0x100 + r) / 0x100 == q && (q * 0x100 + r) % 0x100 == r
  {
  }

  lemma Shifts(n: nat)
    ensures n / 0x1_0000 == n / 0x100 / 0x100 && n / 0x100_0000 == n / 0x100 / 0x100 / 0x100
  {
  }

  /** Seek to `pos` and write `data`; a gap past the end is filled with zeros. */
  function WriteAt(device: seq<byte>, pos: nat, data: seq<byte>): (r: seq<byte>)
    ensures |r| == if pos + |data| > |device| then pos + |data| else |device|
    ensures forall i :: 0 <= i < |data| ==> r[pos + i] == data[i]
    ensures forall i :: 0 <= i < |device| && !(pos <= i < pos + |data|) ==> r[i] == device[i]
  {
    var padded := if pos > |device| then device + seq(pos - |device|, _ => 0) else device;
    padded[..pos] + data + (if pos + |data| < |padded| then padded[pos + |data|..] else [])
  }
}

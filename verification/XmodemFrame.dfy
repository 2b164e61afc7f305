/**
 Frames of the XMODEM protocol (section 7 of Forsberg's XMODEM/YMODEM Protocol
 Reference) and the check that system/xmodem.c applies to them.
 */
module XmodemFrame {
  import opened Bytes
  import opened Arithmetic

  const PACKET_SIZE := 132
  const DATA_SIZE := 128

  const SOH: byte := 0x01
  const EOT: byte := 0x04
  const ACK: byte := 0x06
  const NAK: byte := 0x15
  const CPMEOF: byte := 0x1A

  function Sum(s: seq<byte>): nat {
    if s == [] then 0 else Sum(s[..|s| - 1]) + s[|s| - 1]
  }

  function Checksum(s: seq<byte>): byte {
    Sum(s) % 256
  }

  /** The frame a sender makes for a block: header, number, its complement, data
      and checksum. */
  function Frame(block: nat, payload: seq<byte>): (f: seq<byte>)
    requires |payload| == DATA_SIZE
    ensures |f| == PACKET_SIZE
  {
    [SOH, block % 256, 255 - block % 256] + payload + [Checksum(payload)]
  }

  function Payload(packet: seq<byte>): (d: seq<byte>)
    requires |packet| == PACKET_SIZE
    ensures |d| == DATA_SIZE
  {
    packet[3..131]
  }

  predicate Accepts(packet: seq<byte>, low: int)
    requires |packet| == PACKET_SIZE
  {
    && packet[0] == SOH
    && packet[2] == 255 - packet[1]
    && packet[1] <= low
    && Checksum(Payload(packet)) == packet[131]
  }

  /** The bytes on the line, as the protocol has them. */
  lemma ProtocolBytes()
    ensures SOH == 0x01 && EOT == 0x04 && ACK == 0x06 && NAK == 0x15 && CPMEOF == 0x1A
    ensures PACKET_SIZE == 132 && DATA_SIZE == 128
  {
  }

  lemma SumOfOne(v: byte)
    ensures Sum([v]) == v
  {
    assert [v][..0] == [];
  }

  /** Sums add up, so that a sum is that of its single bytes and nothing else. */
  lemma {:induction false} SumOfConcat(a: seq<byte>, b: seq<byte>)
    ensures Sum(a + b) == Sum(a) + Sum(b)
    decreases |b|
  {
    if b == [] {
      assert a + b == a;
    } else {
      var n := |b| - 1;
      assert (a + b)[..|a + b| - 1] == a + b[..n] && (a + b)[|a + b| - 1] == b[n];
      SumOfConcat(a, b[..n]);
    }
  }

  /** How often each byte value occurs is all the checksum depends on: it is the
      values times their counts, modulo 256. */
  lemma {:induction false} ChecksumCounts(s: seq<byte>)
    ensures Checksum(s) == Weighted(s, 256) % 256
  {
    SumIsWeighted(s);
  }

  /** The values below `bound` times their number of occurrences. */
  function Weighted(s: seq<byte>, bound: nat): nat
    requires bound <= 256
  {
    if bound == 0 then 0 else Weighted(s, bound - 1) + Times(multiset(s)[bound - 1], bound - 1)
  }

  lemma {:induction false} SumIsWeighted(s: seq<byte>)
    ensures Sum(s) == Weighted(s, 256)
  {
    if s == [] {
      NothingWeighs(256);
    } else {
      var n := |s| - 1;
      SumIsWeighted(s[..n]);
      OneMoreWeighs(s[..n], s[n], 256);
      assert s == s[..n] + [s[n]];
    }
  }

  lemma {:induction false} NothingWeighs(bound: nat)
    requires bound <= 256
    ensures Weighted([], bound) == 0
  {
    if bound > 0 {
      NothingWeighs(bound - 1);
    }
  }

  lemma {:induction false} OneMoreWeighs(s: seq<byte>, v: byte, bound: nat)
    requires bound <= 256
    ensures Weighted(s + [v], bound) == Weighted(s, bound) + if v < bound then v else 0
    decreases bound
  {
    if bound > 0 {
      OneMoreWeighs(s, v, bound - 1);
      assert multiset(s + [v]) == multiset(s) + multiset{v};
    }
  }

  /** The receiver's checks in the protocol's own terms. */
  lemma AcceptsMeans(packet: seq<byte>, low: int)
    requires |packet| == 132
    ensures Accepts(packet, low) <==>
            && packet[0] == 0x01 && (packet[1] as int) + packet[2] == 255 && packet[1] <= low
            && packet[131] == Weighted(packet[3..131], 256) % 256
  {
    ChecksumCounts(packet[3..131]);
  }

  /** process_xmodem: the block number of an acceptable frame, or -1. */
  method ProcessXmodem(packet: array<byte>, low: int) returns (result: int)
    requires packet.Length == PACKET_SIZE
    ensures result == if Accepts(packet[..], low) then packet[1] else -1
  {
    if packet[0] != SOH {
      return -1;
    }
    if packet[2] != 0xFF - packet[1] {
      return -1;
    }
    if packet[1] > low {
      return -1;
    }
    var i, checksum: byte := 0, 0;
    while i < DATA_SIZE
      invariant 0 <= i <= DATA_SIZE
      invariant checksum == Checksum(packet[3..3 + i])
    {
      assert packet[3..3 + i + 1][..i] == packet[3..3 + i];
      checksum := (checksum + packet[3 + i]) % 256;
      i := i + 1;
    }
    assert packet[..][3..131] == packet[3..131];
    if checksum != packet[PACKET_SIZE - 1] {
      return -1;
    }
    return packet[1];
  }

  /** The receiver accepts exactly the well-formed frames numbered no higher than
      the low byte of the block it expects. */
  lemma AcceptsIffFrame(packet: seq<byte>, low: int)
    requires |packet| == PACKET_SIZE
    ensures Accepts(packet, low) <==> packet[1] <= low && packet == Frame(packet[1], Payload(packet))
  {
  }

  lemma FrameParts(block: nat, payload: seq<byte>)
    requires |payload| == DATA_SIZE
    ensures Payload(Frame(block, payload)) == payload
    ensures Frame(block, payload)[0] == SOH
    ensures Frame(block, payload)[1] == block % 256
    ensures forall low :: Accepts(Frame(block, payload), low) <==> block % 256 <= low
  {
  }

  lemma {:induction false} SumOfUpdate(s: seq<byte>, i: nat, v: byte)
    requires i < |s|
    ensures Sum(s[i := v]) == Sum(s) - s[i] + v
  {
    var n := |s| - 1;
    if i == n {
      assert s[i := v][..n] == s[..n];
    } else {
      assert s[i := v][..n] == s[..n][i := v];
      SumOfUpdate(s[..n], i, v);
    }
  }

  /** Changing any one byte of an acceptable frame makes it unacceptable. */
  lemma OneByteErrorIsRejected(packet: seq<byte>, low: int, i: nat, v: byte)
    requires |packet| == PACKET_SIZE && Accepts(packet, low)
    requires i < PACKET_SIZE && v != packet[i]
    ensures !Accepts(packet[i := v], low)
  {
    var bad := packet[i := v];
    if 3 <= i < 131 {
      assert Payload(bad) == Payload(packet)[i - 3 := v];
      SumOfUpdate(Payload(packet), i - 3, v);
    } else {
      assert Payload(bad) == Payload(packet);
    }
  }
}

/**
 The receiver of system/xmodem.c as a state machine. One poll sees whether the
 packet timer has expired and at most one received byte; a run is any sequence of
 such events.
 */
module XmodemModel {
  import opened Bytes
  import opened XmodemFrame

  datatype Option<T> = None | Some(value: T)

  const DATA_RETRY := 30

  datatype Event = Event(expired: bool, input: Option<byte>)

  /** `memory` is the memory around the destination buffer, which starts at
      address `destination`; `sent` is everything sent back to the peer. */
  datatype Receiver = Receiver(
    block: int, i: int, retry: int, rcvd: int,
    packet: seq<byte>, memory: seq<byte>, destination: int, sent: seq<byte>)

  /** Between polls of a transfer in progress. */
  predicate Live(s: Receiver) {
    && s.block >= 1
    && 0 <= s.i < PACKET_SIZE
    && 0 <= s.retry <= DATA_RETRY
    && |s.packet| == PACKET_SIZE
  }

  function Written(m: seq<byte>, at: int, data: seq<byte>): (r: seq<byte>)
    ensures |r| == |m|
  {
    if 0 <= at && at + |data| <= |m| then m[..at] + data + m[at + |data|..] else m
  }

  /** The longest length up to `n` at which the buffer does not end in CPMEOF. */
  function Trim(m: seq<byte>, destination: int, n: int): int
    decreases n
  {
    if n > 0 && 0 <= destination + n - 1 < |m| && m[destination + n - 1] == CPMEOF
    then Trim(m, destination, n - 1) else n
  }

  /** The trimmed length is the one behind the last byte that is not an EOF marker. */
  lemma {:induction false} TrimIsExact(m: seq<byte>, destination: nat, n: int)
    requires destination + n <= |m|
    ensures var r := Trim(m, destination, n);
            if n <= 0 then r == n
            else
              && 0 <= r <= n && (r > 0 ==> m[destination + r - 1] != 0x1A)
              && forall k :: destination + r <= k < destination + n ==> m[k] == 0x1A
    decreases n
  {
    if n > 0 && m[destination + n - 1] == CPMEOF {
      TrimIsExact(m, destination, n - 1);
    }
  }

  lemma RetryLimit()
    ensures DATA_RETRY == 30
  {
  }

  /** The full block number a frame number stands for: the high bits of the
      expected block are kept. */
  function Addressed(number: int, block: int): int {
    number + (block - block % 256)
  }

  function Start(s: Receiver, destination: int): Receiver {
    s.(block := 1, rcvd := 0, retry := 0, i := 0, destination := destination)
  }

  function TimedOut(s: Receiver): Receiver {
    if s.retry + 1 > DATA_RETRY then s.(retry := s.retry + 1, block := 0)
    else s.(retry := s.retry + 1, i := 0, sent := s.sent + [NAK])
  }

  function EndOfFile(s: Receiver): Receiver {
    s.(rcvd := Trim(s.memory, s.destination, (s.block - 2) * PACKET_SIZE),
       sent := s.sent + [ACK], block := 0)
  }

  function Completed(s: Receiver, packet: seq<byte>): Receiver
    requires |packet| == PACKET_SIZE
  {
    var done := s.(packet := packet, retry := 0, i := 0);
    if Accepts(packet, s.block % 256) then
      var b := Addressed(packet[1], s.block);
      done.(block := b + 1,
            memory := Written(s.memory, s.destination + (b - 1) * DATA_SIZE, Payload(packet)),
            sent := s.sent + [ACK])
    else
      done.(sent := s.sent + [NAK])
  }

  function Received(s: Receiver, b: byte): Receiver
    requires |s.packet| == PACKET_SIZE && 0 <= s.i < PACKET_SIZE
  {
    if s.i == 0 && b == EOT then EndOfFile(s)
    else if s.i + 1 == PACKET_SIZE then Completed(s, s.packet[s.i := b])
    else s.(packet := s.packet[s.i := b], i := s.i + 1)
  }

  /** The state in which a poll looks for input. */
  function Waited(s: Receiver, e: Event): (t: Receiver)
    requires Live(s)
    ensures t.block == 0 || Live(t)
    ensures t.memory == s.memory && t.destination == s.destination
  {
    if e.expired then TimedOut(s) else s
  }

  function Poll(s: Receiver, e: Event): (r: Receiver)
    requires Live(s)
    ensures r.block == 0 || Live(r)
    ensures r.destination == s.destination && |r.memory| == |s.memory|
  {
    var t := Waited(s, e);
    if t.block == 0 || e.input.None? then t else Received(t, e.input.value)
  }

  /** The bytes found, in order. */
  function Inputs(events: seq<Event>): seq<byte> {
    if events == [] then []
    else (if events[0].input.Some? then [events[0].input.value] else []) + Inputs(events[1..])
  }

  /** Polling until the transfer ends or the events do. */
  function Run(s: Receiver, events: seq<Event>): (r: Receiver)
    requires s.block == 0 || Live(s)
    ensures r.block == 0 || Live(r)
    ensures r.destination == s.destination && |r.memory| == |s.memory|
    decreases |events|
  {
    if s.block == 0 || events == [] then s else Run(Poll(s, events[0]), events[1..])
  }

  /** The frame, if any, that this poll completes. */
  function Collected(s: Receiver, e: Event): (p: Option<seq<byte>>)
    requires Live(s)
    ensures p.Some? ==> |p.value| == PACKET_SIZE
  {
    var t := Waited(s, e);
    if t.block != 0 && e.input.Some? && t.i == PACKET_SIZE - 1
    then Some(t.packet[t.i := e.input.value]) else None
  }

  predicate EndsFile(s: Receiver, e: Event)
    requires Live(s)
  {
    var t := Waited(s, e);
    t.block != 0 && e.input == Some(EOT) && t.i == 0
  }

  lemma {:induction false} RunOfConcat(s: Receiver, a: seq<Event>, b: seq<Event>)
    requires s.block == 0 || Live(s)
    ensures Run(s, a + b) == Run(Run(s, a), b)
    decreases |a|
  {
    if a == [] {
      assert a + b == b;
    } else if s.block != 0 {
      assert (a + b)[1..] == a[1..] + b;
      RunOfConcat(Poll(s, a[0]), a[1..], b);
    }
  }
}

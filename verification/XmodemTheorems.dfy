/** What the receiver promises over every run. */
module XmodemTheorems {
  import opened Bytes
  import opened XmodemFrame
  import opened XmodemModel

  // ----- every byte stream

  /** One poll writes at most one 128-byte slot, and only for a frame it accepts;
      the slot's number is at most the expected block, and the expected block grows
      by at most one. */
  lemma PollWritesOneSlot(s: Receiver, e: Event)
    requires Live(s)
    ensures var r := Poll(s, e);
            && r.block <= s.block + 1
            && (r.memory != s.memory ==>
                  && Collected(s, e).Some? && Accepts(Collected(s, e).value, s.block % 256)
                  && 0 <= r.block - 1 <= s.block
                  && forall a :: 0 <= a < |s.memory|
                       && !(0 <= a - (s.destination + (r.block - 2) * DATA_SIZE) < DATA_SIZE)
                       ==> r.memory[a] == s.memory[a])
  {
  }

  /** Where an accepted frame goes, in a buffer of `length` bytes. If the expected
      block has room, the frame stays inside the buffer unless it is numbered zero
      before the first wraparound; then it lands in the 128 bytes below. The expected
      block itself runs past the end if and only if there is no room for it. */
  lemma SlotIsInsideIff(s: Receiver, packet: seq<byte>, length: nat)
    requires Live(s) && |packet| == PACKET_SIZE && Accepts(packet, s.block % 256)
    ensures var at := (Addressed(packet[1], s.block) - 1) * DATA_SIZE;
            && (DATA_SIZE * s.block <= length ==>
                  (0 <= at && at + DATA_SIZE <= length <==> !(packet[1] == 0 && s.block < 256)))
            && (packet[1] == 0 && s.block < 256 ==> at == -DATA_SIZE)
            && (packet[1] == s.block % 256 ==> (at + DATA_SIZE <= length <==> DATA_SIZE * s.block <= length))
  {
  }

  /** Such a frame is accepted at every expected block, and before the first
      wraparound it overwrites what lies below the buffer and restarts the transfer
      at block 1. */
  lemma ZeroFrameRestarts(s: Receiver, d: seq<byte>)
    requires Live(s) && |d| == DATA_SIZE
    ensures Accepts(Frame(0, d), s.block % 256)
    ensures s.block < 256 ==>
              var r := Completed(s, Frame(0, d));
              r.block == 1 && r.memory == Written(s.memory, s.destination - DATA_SIZE, d) && r.sent == s.sent + [ACK]
  {
    FrameParts(0, d);
  }

  /** What an accepted frame does to the expected block: it goes back if and only if
      the frame's number is further behind the expected one than the last. */
  lemma BlockGoesBackIff(s: Receiver, packet: seq<byte>)
    requires Live(s) && |packet| == PACKET_SIZE && Accepts(packet, s.block % 256)
    ensures var r, number: int := Completed(s, packet), packet[1];
            && (r.block < s.block <==> number + 1 < s.block % 256)
            && (r.block == s.block <==> number + 1 == s.block % 256)
            && (r.block == s.block + 1 <==> number == s.block % 256)
            && (r.block - 1) % 256 == number
  {
  }

  // ----- the file

  function Block(file: seq<byte>, k: nat): (d: seq<byte>)
    requires k >= 1 && DATA_SIZE * k <= |file|
    ensures |d| == DATA_SIZE
  {
    file[DATA_SIZE * (k - 1)..DATA_SIZE * k]
  }

  predicate Genuine(packet: seq<byte>, file: seq<byte>, k: int) {
    k >= 1 && DATA_SIZE * k <= |file| && packet == Frame(k, Block(file, k))
  }

  /** All blocks before the expected one are in the buffer. */
  ghost predicate HoldsPrefix(s: Receiver, file: seq<byte>) {
    && s.block >= 1 && DATA_SIZE * (s.block - 1) <= |file|
    && 0 <= s.destination && s.destination + |file| <= |s.memory|
    && s.memory[s.destination..s.destination + DATA_SIZE * (s.block - 1)] == file[..DATA_SIZE * (s.block - 1)]
  }

  /** A frame for the expected block is stored and acknowledged. */
  lemma NextBlockIsStored(s: Receiver, file: seq<byte>)
    requires Live(s) && HoldsPrefix(s, file) && DATA_SIZE * s.block <= |file|
    ensures var r := Completed(s, Frame(s.block, Block(file, s.block)));
            && r.block == s.block + 1 && HoldsPrefix(r, file) && r.sent == s.sent + [ACK]
  {
    var p, d := Frame(s.block, Block(file, s.block)), Block(file, s.block);
    FrameParts(s.block, d);
    var at := s.destination + (s.block - 1) * DATA_SIZE;
    var m := Written(s.memory, at, d);
    assert Completed(s, p).memory == m;
    assert m[s.destination..at + DATA_SIZE] == s.memory[s.destination..at] + d;
    assert file[..DATA_SIZE * s.block] == file[..DATA_SIZE * (s.block - 1)] + d;
  }

  /** A resend of the block before the expected one changes neither block nor
      memory. It is acknowledged again unless its number is 255 mod 256, when it is
      refused. */
  lemma ResendIsHarmless(s: Receiver, file: seq<byte>)
    requires Live(s) && HoldsPrefix(s, file) && s.block > 1
    ensures var r := Completed(s, Frame(s.block - 1, Block(file, s.block - 1)));
            && r.block == s.block && r.memory == s.memory
            && r.sent == s.sent + [if s.block % 256 == 0 then NAK else ACK]
  {
    var k := s.block - 1;
    var d := Block(file, k);
    FrameParts(k, d);
    assert s.block % 256 != 0 ==> Addressed(k % 256, s.block) == k;
    StoredBlock(s, file, k);
    RewriteIsIdempotent(s.memory, s.destination + (k - 1) * DATA_SIZE, d);
  }

  lemma RewriteIsIdempotent(m: seq<byte>, at: nat, data: seq<byte>)
    requires at + |data| <= |m| && m[at..at + |data|] == data
    ensures Written(m, at, data) == m
  {
  }

  lemma StoredBlock(s: Receiver, file: seq<byte>, k: nat)
    requires HoldsPrefix(s, file) && 1 <= k < s.block
    ensures var at := s.destination + (k - 1) * DATA_SIZE;
            s.memory[at..at + DATA_SIZE] == Block(file, k)
  {
    var n := DATA_SIZE * (s.block - 1);
    var whole := s.memory[s.destination..s.destination + n];
    var at := s.destination + (k - 1) * DATA_SIZE;
    assert s.memory[at..at + DATA_SIZE] == whole[DATA_SIZE * (k - 1)..DATA_SIZE * k];
    assert Block(file, k) == file[..n][DATA_SIZE * (k - 1)..DATA_SIZE * k];
  }

  /** Frames the checks let through are genuine: the expected block or a resend of
      the one before. */
  predicate OnlyGenuine(s: Receiver, e: Event, file: seq<byte>)
    requires Live(s)
  {
    var p := Collected(s, e);
    p.Some? && Accepts(p.value, s.block % 256) ==>
      Genuine(p.value, file, s.block) || Genuine(p.value, file, s.block - 1)
  }

  predicate AllGenuine(s: Receiver, events: seq<Event>, file: seq<byte>)
    requires s.block == 0 || Live(s)
    decreases |events|
  {
    s.block != 0 && events != [] ==>
      OnlyGenuine(s, events[0], file) && AllGenuine(Poll(s, events[0]), events[1..], file)
  }

  lemma PollKeepsPrefix(s: Receiver, e: Event, file: seq<byte>)
    requires Live(s) && HoldsPrefix(s, file) && OnlyGenuine(s, e, file)
    ensures Poll(s, e).block == 0 ==> Poll(s, e).memory == s.memory
    ensures Poll(s, e).block != 0 ==> HoldsPrefix(Poll(s, e), file)
    ensures Poll(s, e).block == 0 || s.block <= Poll(s, e).block
  {
    PollIsFrameOrNot(s, e);
    var p := Collected(s, e);
    if p.Some? {
      FrameKeepsPrefix(Waited(s, e), p.value, file);
    }
  }

  /** A frame that is refused, or genuine, keeps the buffer a prefix of the file. */
  lemma FrameKeepsPrefix(t: Receiver, p: seq<byte>, file: seq<byte>)
    requires Live(t) && HoldsPrefix(t, file) && |p| == PACKET_SIZE
    requires Accepts(p, t.block % 256) ==> Genuine(p, file, t.block) || Genuine(p, file, t.block - 1)
    ensures HoldsPrefix(Completed(t, p), file) && t.block <= Completed(t, p).block
  {
    if Accepts(p, t.block % 256) {
      if Genuine(p, file, t.block) {
        NextBlockIsStored(t, file);
      } else {
        ResendIsHarmless(t, file);
      }
    }
  }

  /** A poll either completes a frame or leaves block and memory alone. */
  lemma PollIsFrameOrNot(s: Receiver, e: Event)
    requires Live(s)
    ensures var t, p, r := Waited(s, e), Collected(s, e), Poll(s, e);
            if p.Some? then t.block == s.block && r == Completed(t, p.value)
            else r.memory == s.memory && (r.block == s.block || r.block == 0)
  {
  }

  /** For a file of any number of blocks and any mix of bytes and timeouts, the
      buffer holds the file up to the expected block at every poll boundary, and the
      expected block never goes back. */
  lemma {:induction false} RunHoldsPrefix(s: Receiver, events: seq<Event>, file: seq<byte>)
    requires Live(s) && HoldsPrefix(s, file) && AllGenuine(s, events, file)
    ensures var r := Run(s, events); r.block != 0 ==> HoldsPrefix(r, file) && s.block <= r.block
    decreases |events|
  {
    if events != [] {
      var s1 := Poll(s, events[0]);
      PollKeepsPrefix(s, events[0], file);
      if s1.block != 0 {
        RunHoldsPrefix(s1, events[1..], file);
      }
    }
  }

  // ----- frames byte by byte

  function Arrivals(bytes: seq<byte>): (es: seq<Event>)
    ensures |es| == |bytes|
    ensures forall k :: 0 <= k < |bytes| ==> es[k] == Event(false, Some(bytes[k]))
  {
    seq(|bytes|, k requires 0 <= k < |bytes| => Event(false, Some(bytes[k])))
  }

  lemma {:induction false} FeedRest(s: Receiver, packet: seq<byte>)
    requires Live(s) && |packet| == PACKET_SIZE
    requires s.packet[..s.i] == packet[..s.i]
    requires s.i == 0 ==> packet[0] != EOT
    ensures Run(s, Arrivals(packet[s.i..])) == Completed(s, packet)
    decreases PACKET_SIZE - s.i
  {
    var es := Arrivals(packet[s.i..]);
    assert packet[s.i..][1..] == packet[s.i + 1..];
    assert es[1..] == Arrivals(packet[s.i + 1..]);
    var next := s.packet[s.i := packet[s.i]];
    assert next[..s.i + 1] == packet[..s.i + 1];
    if s.i + 1 == PACKET_SIZE {
      assert next == packet && es[1..] == [];
    } else {
      FeedRest(s.(packet := next, i := s.i + 1), packet);
    }
  }

  /** Part of a frame only fills the packet. */
  lemma {:induction false} FeedPart(s: Receiver, part: seq<byte>)
    requires Live(s) && s.i + |part| < PACKET_SIZE && (s.i == 0 && part != [] ==> part[0] != EOT)
    ensures var r := Run(s, Arrivals(part));
            Live(r) && r == s.(packet := r.packet, i := s.i + |part|)
    decreases |part|
  {
    if part != [] {
      ArrivalsOfConcat([part[0]], part[1..]);
      assert part == [part[0]] + part[1..] && Arrivals(part)[1..] == Arrivals(part[1..]);
      FeedPart(s.(packet := s.packet[s.i := part[0]], i := s.i + 1), part[1..]);
    }
  }

  /** The 132 bytes of a frame, collected one per poll, act as one step. */
  lemma FeedFrame(s: Receiver, packet: seq<byte>)
    requires Live(s) && s.i == 0 && |packet| == PACKET_SIZE && packet[0] != EOT
    ensures Run(s, Arrivals(packet)) == Completed(s, packet)
  {
    assert packet[0..] == packet;
    FeedRest(s, packet);
  }

  lemma ArrivalsOfConcat(a: seq<byte>, b: seq<byte>)
    ensures Arrivals(a + b) == Arrivals(a) + Arrivals(b)
  {
  }

  lemma FeedFrameThen(s: Receiver, packet: seq<byte>, rest: seq<byte>, all: seq<byte>)
    requires Live(s) && s.i == 0 && |packet| == PACKET_SIZE && packet[0] != EOT
    requires all == packet + rest
    ensures Live(Completed(s, packet))
    ensures Run(s, Arrivals(all)) == Run(Completed(s, packet), Arrivals(rest))
  {
    FeedFrame(s, packet);
    ArrivalsOfConcat(packet, rest);
    RunOfConcat(s, Arrivals(packet), Arrivals(rest));
  }

  /** On the line, a single-byte error in a frame is refused without effect if and
      only if it does not turn the header into EOT; that one ends the transfer as if
      the file were complete. */
  lemma OneByteErrorOnTheLine(s: Receiver, packet: seq<byte>, i: nat, v: byte)
    requires Live(s) && s.i == 0 && |packet| == PACKET_SIZE && Accepts(packet, s.block % 256)
    requires i < PACKET_SIZE && v != packet[i]
    ensures var r := Run(s, Arrivals(packet[i := v]));
            && (r.block == s.block && r.memory == s.memory && r.sent == s.sent + [NAK] <==> !(i == 0 && v == EOT))
            && (i == 0 && v == EOT ==> r.block == 0 && r.sent == s.sent + [ACK])
  {
    var bad := packet[i := v];
    if i == 0 && v == EOT {
      assert Arrivals(bad)[0] == Event(false, Some(EOT));
      assert Poll(s, Arrivals(bad)[0]) == EndOfFile(s);
    } else {
      OneByteErrorIsRejected(packet, s.block % 256, i, v);
      FeedFrame(s, bad);
    }
  }

  // ----- a whole transfer

  /** What a sender sends for blocks `k` onwards when nothing goes wrong. */
  function Transmission(file: seq<byte>, k: nat): seq<byte>
    requires k >= 1 && |file| % DATA_SIZE == 0
    decreases |file| - DATA_SIZE * k
  {
    if DATA_SIZE * k <= |file| then Frame(k, Block(file, k)) + Transmission(file, k + 1) else [EOT]
  }

  function Acks(n: nat): (r: seq<byte>)
    ensures |r| == n && forall k :: 0 <= k < n ==> r[k] == ACK
  {
    if n == 0 then [] else [ACK] + Acks(n - 1)
  }

  ghost predicate HoldsFile(r: Receiver, file: seq<byte>) {
    && 0 <= r.destination && r.destination + |file| <= |r.memory|
    && r.memory[r.destination..r.destination + |file|] == file
  }

  /** The transfer is over and the buffer holds the file. */
  ghost predicate Delivered(r: Receiver, file: seq<byte>) {
    && r.block == 0
    && HoldsFile(r, file)
    && r.rcvd == Trim(r.memory, r.destination, (|file| / DATA_SIZE - 1) * PACKET_SIZE)
  }

  /** Blocks not yet received. */
  function BlocksLeft(s: Receiver, file: seq<byte>): int {
    |file| / DATA_SIZE - s.block + 1
  }

  /** The bytes of the rest of the file, one per poll, are delivered and acknowledged. */
  lemma {:induction false} TransferFrom(s: Receiver, file: seq<byte>, all: seq<byte>)
    requires Live(s) && s.i == 0 && HoldsPrefix(s, file) && |file| % DATA_SIZE == 0
    requires all == Transmission(file, s.block)
    ensures BlocksLeft(s, file) >= 0
    ensures var r := Run(s, Arrivals(all));
            Delivered(r, file) && r.destination == s.destination && r.sent == s.sent + Acks(BlocksLeft(s, file) + 1)
    decreases |file| - DATA_SIZE * s.block
  {
    if DATA_SIZE * s.block <= |file| {
      var p, rest := Frame(s.block, Block(file, s.block)), Transmission(file, s.block + 1);
      NextBlockIsStored(s, file);
      FeedFrameThen(s, p, rest, all);
      TransferFrom(Completed(s, p), file, rest);
      OneMoreAck(s.sent, BlocksLeft(s, file));
    } else {
      SendEot(s, file, all);
    }
  }

  lemma OneMoreAck(sent: seq<byte>, n: nat)
    ensures sent + [ACK] + Acks(n) == sent + Acks(n + 1)
  {
  }

  lemma SendEot(s: Receiver, file: seq<byte>, all: seq<byte>)
    requires Live(s) && s.i == 0 && HoldsPrefix(s, file) && |file| % DATA_SIZE == 0
    requires DATA_SIZE * s.block > |file| && all == [EOT]
    ensures BlocksLeft(s, file) == 0
    ensures var r := Run(s, Arrivals(all));
            Delivered(r, file) && r.destination == s.destination && r.sent == s.sent + Acks(1)
  {
    assert Run(s, Arrivals(all)) == EndOfFile(s) && Acks(1) == [ACK];
    assert file[..|file|] == file;
  }

  /** Within this run the packet timer expires only between frames, and never more
      often than the receiver allows. The first poll of a transfer always finds it
      expired. */
  predicate Paced(s: Receiver, events: seq<Event>)
    requires s.block == 0 || Live(s)
    decreases |events|
  {
    s.block != 0 && events != [] ==>
      && (events[0].expired ==> s.i == 0 && s.retry < DATA_RETRY)
      && Paced(Poll(s, events[0]), events[1..])
  }

  /** The two receivers have received the same: they differ at most in retries and in
      what they sent. */
  predicate Alike(a: Receiver, b: Receiver) {
    a == b.(retry := a.retry, sent := a.sent)
  }

  function Count(sent: seq<byte>, reply: byte): nat {
    multiset(sent)[reply]
  }

  /** Of a poll, only the byte it finds makes a difference to what is received; an
      expiry costs a NAK. */
  lemma PacedPoll(a: Receiver, b: Receiver, e: Event)
    requires Live(a) && Live(b) && Alike(a, b) && (e.expired ==> a.i == 0 && a.retry < DATA_RETRY)
    ensures var a', b' := Poll(a, e), if e.input.Some? then Poll(b, Event(false, e.input)) else b;
            && Alike(a', b')
            && Count(a'.sent, ACK) - Count(a.sent, ACK) == Count(b'.sent, ACK) - Count(b.sent, ACK)
            && Count(a'.sent, NAK) - Count(a.sent, NAK) == Count(b'.sent, NAK) - Count(b.sent, NAK) + One(e.expired)
            && (a == b && !e.expired ==> a' == b')
  {
    var t := Waited(a, e);
    assert Alike(t, b);
    if e.input.Some? {
      ReceivedAlike(t, b, e.input.value);
    }
  }

  lemma ReceivedAlike(a: Receiver, b: Receiver, v: byte)
    requires Live(a) && Live(b) && Alike(a, b)
    ensures var a', b' := Received(a, v), Received(b, v);
            && Alike(a', b')
            && exists reply :: a'.sent == a.sent + reply && b'.sent == b.sent + reply
  {
    var reply := if a.i == 0 && v == EOT then [ACK]
                 else if a.i + 1 < PACKET_SIZE then []
                 else if Accepts(a.packet[a.i := v], a.block % 256) then [ACK] else [NAK];
    assert Received(a, v).sent == a.sent + reply && Received(b, v).sent == b.sent + reply;
  }

  lemma FirstInput(events: seq<Event>)
    requires events != []
    ensures var all, rest := Arrivals(Inputs(events)), Arrivals(Inputs(events[1..]));
            if events[0].input.None? then all == rest
            else all != [] && all[0] == Event(false, events[0].input) && all[1..] == rest
  {
    var rest := Inputs(events[1..]);
    if events[0].input.Some? {
      assert Inputs(events) == [events[0].input.value] + rest;
      ArrivalsOfConcat([events[0].input.value], rest);
    } else {
      assert Inputs(events) == rest;
    }
  }

  /** Polls that find no byte, and expiries between frames, make no difference to what
      is received, and cost one NAK for each expiry. */
  lemma {:induction false} IdlePollsDoNothing(a: Receiver, b: Receiver, events: seq<Event>)
    requires (a.block == 0 || Live(a)) && (b.block == 0 || Live(b)) && Alike(a, b) && Paced(a, events)
    ensures var a', b' := Run(a, events), Run(b, Arrivals(Inputs(events)));
            && Alike(a', b')
            && Count(a'.sent, ACK) - Count(a.sent, ACK) == Count(b'.sent, ACK) - Count(b.sent, ACK)
            && Count(a'.sent, NAK) - Count(a.sent, NAK) == Count(b'.sent, NAK) - Count(b.sent, NAK) + Retries(a, events)
            && (a == b && Expiries(events) == 0 ==> a' == b')
    decreases |events|
  {
    if a.block != 0 && events != [] {
      var e := events[0];
      PacedPoll(a, b, e);
      FirstInput(events);
      if e.input.Some? {
        IdlePollsDoNothing(Poll(a, e), Poll(b, Event(false, e.input)), events[1..]);
      } else {
        IdlePollsDoNothing(Poll(a, e), b, events[1..]);
      }
    }
  }

  /** Any file of whole blocks, sent without error and polled at any pace that lets the
      packet timer expire only between frames, arrives complete, with one ACK for each
      frame, one for the end, and one NAK for each expiry. */
  lemma TransferDelivers(s: Receiver, destination: nat, events: seq<Event>, file: seq<byte>)
    requires |s.packet| == PACKET_SIZE && |file| % DATA_SIZE == 0
    requires destination + |file| <= |s.memory|
    requires Paced(Start(s, destination), events) && Inputs(events) == Transmission(file, 1)
    ensures var r := Run(Start(s, destination), events);
            && Delivered(r, file) && r.destination == destination
            && Count(r.sent, ACK) == Count(s.sent, ACK) + |file| / DATA_SIZE + 1
            && Count(r.sent, NAK) == Count(s.sent, NAK) + Retries(Start(s, destination), events)
  {
    IdlePollsDoNothing(Start(s, destination), Start(s, destination), events);
    SwiftTransferDelivers(Start(s, destination), Inputs(events), file);
  }

  /** The same from any block on, when every poll finds a byte. */
  lemma SwiftTransferDelivers(s: Receiver, bytes: seq<byte>, file: seq<byte>)
    requires Live(s) && s.i == 0 && HoldsPrefix(s, file) && |file| % DATA_SIZE == 0
    requires bytes == Transmission(file, s.block)
    ensures var r := Run(s, Arrivals(bytes));
            && Delivered(r, file) && r.destination == s.destination
            && Count(r.sent, ACK) == Count(s.sent, ACK) + BlocksLeft(s, file) + 1
            && Count(r.sent, NAK) == Count(s.sent, NAK)
  {
    TransferFrom(s, file, bytes);
    CountAcks(s.sent, BlocksLeft(s, file) + 1, Run(s, Arrivals(bytes)).sent);
  }

  lemma {:induction false} CountAcks(sent: seq<byte>, n: nat, all: seq<byte>)
    requires all == sent + Acks(n)
    ensures Count(all, ACK) == Count(sent, ACK) + n && Count(all, NAK) == Count(sent, NAK)
    decreases n
  {
    if n > 0 {
      OneMoreAck(sent, n - 1);
      CountAcks(sent + [ACK], n - 1, all);
    } else {
      assert sent + Acks(0) == sent;
    }
  }

  lemma {:induction false} TrimAgrees(m: seq<byte>, destination: nat, a: nat, b: nat)
    requires a <= b && destination + b <= |m|
    ensures Trim(m, destination, a) == Trim(m, destination, b)
       <==> forall k :: destination + a <= k < destination + b ==> m[k] == CPMEOF
    decreases b
  {
    if a < b && m[destination + b - 1] == CPMEOF {
      TrimAgrees(m, destination, a, b - 1);
    } else {
      TrimShortens(m, destination, a);
    }
  }

  lemma {:induction false} TrimShortens(m: seq<byte>, destination: int, n: int)
    ensures Trim(m, destination, n) <= n
    decreases n
  {
    if n > 0 {
      TrimShortens(m, destination, n - 1);
    }
  }

  /** The reported length counts 132 bytes for every block but one, not 128 for
      every block. It agrees with the trimmed length of the n blocks received if and
      only if everything between the two counts is CPMEOF; at 33 blocks the counts
      coincide. */
  lemma ReportedLengthIsExactIff(m: seq<byte>, destination: nat, n: nat)
    requires n >= 1 && destination + DATA_SIZE * n <= |m| && destination + PACKET_SIZE * (n - 1) <= |m|
    ensures var counted, stored := PACKET_SIZE * (n - 1), DATA_SIZE * n;
            var lo, hi := if counted <= stored then counted else stored, if counted <= stored then stored else counted;
            && (Trim(m, destination, counted) == Trim(m, destination, stored)
                <==> forall k :: destination + lo <= k < destination + hi ==> m[k] == CPMEOF)
            && (counted == stored <==> n == 33)
  {
    var counted, stored := PACKET_SIZE * (n - 1), DATA_SIZE * n;
    if counted <= stored {
      TrimAgrees(m, destination, counted, stored);
    } else {
      TrimAgrees(m, destination, stored, counted);
    }
  }

  // ----- replies and retries

  function One(b: bool): nat {
    if b then 1 else 0
  }

  function FramesAccepted(s: Receiver, events: seq<Event>): nat
    requires s.block == 0 || Live(s)
    decreases |events|
  {
    if s.block == 0 || events == [] then 0
    else
      var p := Collected(s, events[0]);
      One(p.Some? && Accepts(p.value, s.block % 256)) + FramesAccepted(Poll(s, events[0]), events[1..])
  }

  function FramesRefused(s: Receiver, events: seq<Event>): nat
    requires s.block == 0 || Live(s)
    decreases |events|
  {
    if s.block == 0 || events == [] then 0
    else
      var p := Collected(s, events[0]);
      One(p.Some? && !Accepts(p.value, s.block % 256)) + FramesRefused(Poll(s, events[0]), events[1..])
  }

  /** Timer expiries that did not give up. */
  function Retries(s: Receiver, events: seq<Event>): nat
    requires s.block == 0 || Live(s)
    decreases |events|
  {
    if s.block == 0 || events == [] then 0
    else One(events[0].expired && s.retry < DATA_RETRY) + Retries(Poll(s, events[0]), events[1..])
  }

  predicate EndedByEot(s: Receiver, events: seq<Event>)
    requires s.block == 0 || Live(s)
    decreases |events|
  {
    s.block != 0 && events != [] && (EndsFile(s, events[0]) || EndedByEot(Poll(s, events[0]), events[1..]))
  }

  /** Over every run, acknowledgements are the accepted frames and the final EOT,
      and refusals are the rejected frames and the timeouts that were retried. */
  lemma {:induction false} RepliesAreAccounted(s: Receiver, events: seq<Event>)
    requires s.block == 0 || Live(s)
    ensures multiset(Run(s, events).sent)[ACK]
         == multiset(s.sent)[ACK] + FramesAccepted(s, events) + One(EndedByEot(s, events))
    ensures multiset(Run(s, events).sent)[NAK]
         == multiset(s.sent)[NAK] + FramesRefused(s, events) + Retries(s, events)
    decreases |events|
  {
    if s.block != 0 && events != [] {
      PollReplies(s, events[0]);
      RepliesAreAccounted(Poll(s, events[0]), events[1..]);
    }
  }

  lemma PollReplies(s: Receiver, e: Event)
    requires Live(s)
    ensures var p, r := Collected(s, e), Poll(s, e);
            && multiset(r.sent)[ACK] == multiset(s.sent)[ACK]
               + One(p.Some? && Accepts(p.value, s.block % 256)) + One(EndsFile(s, e))
            && multiset(r.sent)[NAK] == multiset(s.sent)[NAK]
               + One(p.Some? && !Accepts(p.value, s.block % 256)) + One(e.expired && s.retry < DATA_RETRY)
            && (EndsFile(s, e) ==> r.block == 0)
  {
  }

  predicate Uneventful(s: Receiver, events: seq<Event>)
    requires s.block == 0 || Live(s)
    decreases |events|
  {
    s.block != 0 && events != [] ==>
      && Collected(s, events[0]).None? && !EndsFile(s, events[0])
      && Uneventful(Poll(s, events[0]), events[1..])
  }

  function Expiries(events: seq<Event>): nat {
    if events == [] then 0 else One(events[0].expired) + Expiries(events[1..])
  }

  /** A run that completes no frame and sees no EOT gives up exactly when the timer
      has expired more than DATA_RETRY times since the last complete frame. */
  lemma {:induction false} GivesUpOnRetryLimit(s: Receiver, events: seq<Event>)
    requires Live(s) && Uneventful(s, events)
    ensures Run(s, events).block == 0 <==> s.retry + Expiries(events) > DATA_RETRY
    ensures Run(s, events).memory == s.memory
    decreases |events|
  {
    if events != [] {
      var s1 := Poll(s, events[0]);
      if s1.block != 0 {
        GivesUpOnRetryLimit(s1, events[1..]);
      }
    }
  }
}

/**
 The receiver at work against a stop-and-wait sender (section 7 of Forsberg's
 XMODEM/YMODEM Protocol Reference) over a line that can damage a byte of a frame,
 cut a frame short or drop it, and lose replies. Every round is played byte by byte through the receiver's own
 polls.
 */
module XmodemLink {
  import opened Bytes
  import opened XmodemFrame
  import opened XmodemModel
  import opened XmodemTheorems

  /** A frame arrives intact, with one byte changed, or only its first `length` bytes
      do. */
  datatype Fault = Clean | Flip(at: nat, value: byte) | Cut(length: nat)

  /** One transmission of the sender's current block: what happens to the frame,
      whether the sender hears the reply, and how often the receiver's timer then
      expires before the next transmission. */
  datatype Round = Round(fault: Fault, replyLost: bool, timeouts: nat)

  /** The block the sender is sending, and the receiver. */
  datatype Session = Session(sending: nat, rx: Receiver)

  predicate FileOfBlocks(file: seq<byte>) {
    |file| % DATA_SIZE == 0
  }

  predicate Sending(x: Session, file: seq<byte>) {
    1 <= x.sending && DATA_SIZE * x.sending <= |file|
  }

  function Sent(x: Session, file: seq<byte>): (f: seq<byte>)
    requires Sending(x, file)
    ensures |f| == PACKET_SIZE
  {
    Frame(x.sending, Block(file, x.sending))
  }

  /** The line may change one byte, but not a header into EOT; after a frame cut short
      the sender waits until the receiver's timer has expired; and the receiver is not
      left waiting past its retry limit. */
  predicate LineAllows(x: Session, round: Round, file: seq<byte>)
    requires Sending(x, file)
  {
    && round.timeouts <= DATA_RETRY
    && (round.fault.Flip? ==>
          && round.fault.at < PACKET_SIZE && round.fault.value != Sent(x, file)[round.fault.at]
          && !(round.fault.at == 0 && round.fault.value == EOT))
    && (round.fault.Cut? ==>
          && round.fault.length < PACKET_SIZE
          && 1 <= round.timeouts && x.rx.retry + round.timeouts <= DATA_RETRY)
  }

  function Arrived(frame: seq<byte>, fault: Fault): (f: seq<byte>) {
    if fault.Flip? && fault.at < |frame| then frame[fault.at := fault.value]
    else if fault.Cut? && fault.length < |frame| then frame[..fault.length]
    else frame
  }

  function Expirations(n: nat): seq<Event> {
    if n == 0 then [] else [Event(true, None)] + Expirations(n - 1)
  }

  /** The receiver `r`, before in state `s`, has replied with an ACK. */
  predicate Acknowledges(s: Receiver, r: Receiver) {
    |s.sent| < |r.sent| && r.sent[|r.sent| - 1] == ACK
  }

  function Next(x: Session, round: Round, file: seq<byte>): (y: Session)
    requires (x.rx.block == 0 || Live(x.rx)) && Sending(x, file)
    ensures y.rx.block == 0 || Live(y.rx)
  {
    var rx1 := Run(x.rx, Arrivals(Arrived(Sent(x, file), round.fault)));
    var acknowledged := !round.replyLost && Acknowledges(x.rx, rx1);
    Session(if acknowledged then x.sending + 1 else x.sending, Run(rx1, Expirations(round.timeouts)))
  }

  /** Rounds until the sender has no block left. */
  function Play(x: Session, rounds: seq<Round>, file: seq<byte>): (y: Session)
    requires x.rx.block == 0 || Live(x.rx)
    ensures y.rx.block == 0 || Live(y.rx)
    decreases |rounds|
  {
    if rounds == [] || !Sending(x, file) then x else Play(Next(x, rounds[0], file), rounds[1..], file)
  }

  predicate AllAllowed(x: Session, rounds: seq<Round>, file: seq<byte>)
    requires x.rx.block == 0 || Live(x.rx)
    decreases |rounds|
  {
    rounds != [] && Sending(x, file) ==>
      LineAllows(x, rounds[0], file) && AllAllowed(Next(x, rounds[0], file), rounds[1..], file)
  }

  /** The receiver holds everything acknowledged, and expects the block being sent
      or, when an acknowledgement was lost, the one after. */
  ghost predicate InStep(x: Session, file: seq<byte>) {
    && FileOfBlocks(file)
    && Live(x.rx) && x.rx.i == 0 && HoldsPrefix(x.rx, file)
    && 1 <= x.sending <= x.rx.block <= x.sending + 1
  }

  /** The receiver has stored a block numbered 255 mod 256 but the sender does not
      know. */
  predicate Stuck(x: Session) {
    x.rx.block == x.sending + 1 && x.rx.block % 256 == 0
  }

  /** The acknowledgement of a block numbered 255 mod 256 is lost. */
  predicate LosesWrap(x: Session, round: Round) {
    x.sending % 256 == 255 && round.fault.Clean? && round.replyLost
  }

  /** A session is in step from the start of the transfer on, however often the timer
      expires before the sender begins. */
  lemma FreshIsInStep(s: Receiver, destination: nat, n: nat, file: seq<byte>)
    requires |s.packet| == PACKET_SIZE && FileOfBlocks(file)
    requires destination + |file| <= |s.memory| && n <= DATA_RETRY
    ensures var x := Session(1, Run(Start(s, destination), Expirations(n)));
            InStep(x, file) && x.rx.block == 1
  {
    ExpirationsOnlyRetry(Start(s, destination), n);
  }

  /** Expiries put the receiver back at the beginning of a frame. */
  lemma {:induction false} ExpirationsOnlyRetry(s: Receiver, n: nat)
    requires Live(s) && (s.i == 0 || n > 0) && s.retry + n <= DATA_RETRY
    ensures var r := Run(s, Expirations(n));
            && Live(r) && r.i == 0
            && r.block == s.block && r.memory == s.memory && r.destination == s.destination
    decreases n
  {
    if n > 0 {
      var s1 := Poll(s, Event(true, None));
      assert Expirations(n)[1..] == Expirations(n - 1);
      ExpirationsOnlyRetry(s1, n - 1);
    }
  }

  /** The receiver advances: an intact frame for the block it expects. */
  predicate Advances(x: Session, round: Round) {
    round.fault.Clean? && x.rx.block == x.sending
  }

  /** What one frame does to a receiver in step. */
  ghost predicate AfterFrame(x: Session, round: Round, r: Receiver, file: seq<byte>) {
    && Live(r) && (if round.fault.Cut? then r.retry == x.rx.retry else r.i == 0 && r.retry == 0) && HoldsPrefix(r, file)
    && r.block == (if Advances(x, round) then x.rx.block + 1 else x.rx.block)
    && (!Advances(x, round) ==> r.memory == x.rx.memory)
    && (Acknowledges(x.rx, r) <==> round.fault.Clean? && !Stuck(x))
  }

  lemma FrameInStep(x: Session, round: Round, file: seq<byte>)
    requires InStep(x, file) && Sending(x, file) && LineAllows(x, round, file)
    ensures AfterFrame(x, round, Run(x.rx, Arrivals(Arrived(Sent(x, file), round.fault))), file)
  {
    var p := Arrived(Sent(x, file), round.fault);
    FrameParts(x.sending, Block(file, x.sending));
    if round.fault.Cut? {
      FeedPart(x.rx, p);
    } else {
      FeedFrame(x.rx, p);
      CompletedInStep(x, round, p, file);
    }
  }

  lemma CompletedInStep(x: Session, round: Round, p: seq<byte>, file: seq<byte>)
    requires InStep(x, file) && Sending(x, file) && LineAllows(x, round, file) && !round.fault.Cut?
    requires p == Arrived(Sent(x, file), round.fault)
    ensures AfterFrame(x, round, Completed(x.rx, p), file)
  {
    if round.fault.Flip? {
      FrameParts(x.sending, Block(file, x.sending));
      DamagedIsRefused(Sent(x, file), x.rx.block % 256, round.fault.at, round.fault.value);
      RefusedInStep(x, round, p, file);
    } else if x.rx.block == x.sending {
      StoredInStep(x, round, file);
    } else {
      ResentInStep(x, round, file);
    }
  }

  lemma StoredInStep(x: Session, round: Round, file: seq<byte>)
    requires InStep(x, file) && Sending(x, file) && round.fault.Clean? && x.rx.block == x.sending
    ensures AfterFrame(x, round, Completed(x.rx, Sent(x, file)), file)
  {
    NextBlockIsStored(x.rx, file);
  }

  lemma ResentInStep(x: Session, round: Round, file: seq<byte>)
    requires InStep(x, file) && Sending(x, file) && round.fault.Clean? && x.rx.block == x.sending + 1
    ensures AfterFrame(x, round, Completed(x.rx, Sent(x, file)), file)
  {
    ResendIsHarmless(x.rx, file);
  }

  lemma RefusedInStep(x: Session, round: Round, p: seq<byte>, file: seq<byte>)
    requires InStep(x, file) && round.fault.Flip? && |p| == PACKET_SIZE && !Accepts(p, x.rx.block % 256)
    ensures AfterFrame(x, round, Completed(x.rx, p), file)
  {
  }

  /** A damaged frame is refused at any expected block, whether or not the intact
      one would have been accepted there. */
  lemma DamagedIsRefused(frame: seq<byte>, low: int, i: nat, v: byte)
    requires |frame| == PACKET_SIZE && Accepts(frame, 255)
    requires i < PACKET_SIZE && v != frame[i]
    ensures !Accepts(frame[i := v], low)
  {
    OneByteErrorIsRejected(frame, 255, i, v);
  }

  /** One round from a session in step: it stays in step, a stuck one stays stuck, a
      clean one that is not stuck moves the sender on, and the loss of the
      acknowledgement of a block numbered 255 mod 256, and nothing else, gets it
      stuck. */
  ghost predicate IsRound(x: Session, round: Round, y: Session, file: seq<byte>) {
    && InStep(y, file)
    && (y.rx.memory == x.rx.memory || x.rx.block == x.sending)
    && x.sending <= y.sending <= x.sending + 1
    && (Stuck(x) ==> Stuck(y) && y.sending == x.sending)
    && (round.fault.Clean? && !round.replyLost && !Stuck(x) ==> y.sending == x.sending + 1)
    && (!Stuck(x) ==> (Stuck(y) <==> LosesWrap(x, round)))
  }

  lemma RoundKeepsStep(x: Session, round: Round, file: seq<byte>)
    requires InStep(x, file) && Sending(x, file) && LineAllows(x, round, file)
    ensures IsRound(x, round, Next(x, round, file), file)
  {
    var rx1 := Run(x.rx, Arrivals(Arrived(Sent(x, file), round.fault)));
    FrameInStep(x, round, file);
    ExpirationsOnlyRetry(rx1, round.timeouts);
    RoundResult(x, round, rx1, Next(x, round, file), file);
  }

  lemma RoundResult(x: Session, round: Round, rx1: Receiver, y: Session, file: seq<byte>)
    requires InStep(x, file) && Sending(x, file) && AfterFrame(x, round, rx1, file)
    requires y.sending == if !round.replyLost && Acknowledges(x.rx, rx1) then x.sending + 1 else x.sending
    requires Live(y.rx) && y.rx.i == 0 && y.rx.block == rx1.block
    requires y.rx.memory == rx1.memory && y.rx.destination == rx1.destination
    ensures IsRound(x, round, y, file)
  {
  }

  /** Whatever the line does to frames and replies, the receiver always holds
      exactly the file up to the block it expects; and when the sender has had its
      last block acknowledged, the receiver holds the whole file. */
  lemma {:induction false} LinkIsSafe(x: Session, rounds: seq<Round>, file: seq<byte>)
    requires InStep(x, file) && AllAllowed(x, rounds, file)
    ensures var y := Play(x, rounds, file);
            InStep(y, file) && (!Sending(y, file) ==> HoldsFile(y.rx, file))
    decreases |rounds|
  {
    if rounds != [] && Sending(x, file) {
      RoundKeepsStep(x, rounds[0], file);
      LinkIsSafe(Next(x, rounds[0], file), rounds[1..], file);
    } else if !Sending(x, file) {
      assert DATA_SIZE * (x.rx.block - 1) == |file| && file[..|file|] == file;
    }
  }

  /** Once stuck, no round of any kind moves the transfer on: every resend is
      refused. */
  lemma {:induction false} StuckForever(x: Session, rounds: seq<Round>, file: seq<byte>)
    requires InStep(x, file) && Sending(x, file) && Stuck(x) && AllAllowed(x, rounds, file)
    ensures var y := Play(x, rounds, file);
            y.sending == x.sending && y.rx.block == x.rx.block && y.rx.memory == x.rx.memory
    decreases |rounds|
  {
    if rounds != [] {
      RoundKeepsStep(x, rounds[0], file);
      StuckForever(Next(x, rounds[0], file), rounds[1..], file);
    }
  }

  /** So the loss of that one acknowledgement ends all progress, whatever follows. */
  lemma LostWrapStopsTransfer(x: Session, rounds: seq<Round>, file: seq<byte>)
    requires InStep(x, file) && Sending(x, file) && AllAllowed(x, rounds, file)
    requires rounds != [] && LosesWrap(x, rounds[0])
    ensures var y := Play(x, rounds, file);
            y.sending == x.sending && y.rx.block == x.sending + 1
  {
    RoundKeepsStep(x, rounds[0], file);
    StuckForever(Next(x, rounds[0], file), rounds[1..], file);
  }

  /** `n` rounds in which nothing goes wrong and one that loses the reply. */
  function LateLoss(n: nat): seq<Round> {
    [Round(Clean, n == 0, 0)] + if n == 0 then [] else LateLoss(n - 1)
  }

  lemma {:induction false} LateLossSticks(x: Session, n: nat, file: seq<byte>)
    requires InStep(x, file) && !Stuck(x)
    requires (x.sending + n) % 256 == 255 && DATA_SIZE * (x.sending + n) <= |file|
    ensures AllAllowed(x, LateLoss(n), file) && Stuck(Play(x, LateLoss(n), file))
    decreases n
  {
    var round := Round(Clean, n == 0, 0);
    var y := Next(x, round, file);
    RoundKeepsStep(x, round, file);
    if n == 0 {
      PlayFirst(x, round, [], file);
    } else {
      LateLossSticks(y, n - 1, file);
      PlayFirst(x, round, LateLoss(n - 1), file);
    }
  }

  lemma PlayFirst(x: Session, round: Round, rest: seq<Round>, file: seq<byte>)
    requires (x.rx.block == 0 || Live(x.rx)) && Sending(x, file)
    ensures Play(x, [round] + rest, file) == Play(Next(x, round, file), rest, file)
    ensures AllAllowed(x, [round] + rest, file) <==>
            LineAllows(x, round, file) && AllAllowed(Next(x, round, file), rest, file)
  {
    assert ([round] + rest)[1..] == rest;
  }

  /** So every file of at least 255 blocks can get stuck: 254 clean rounds from the
      start, or 256 more and so on, and the loss of one reply do it. */
  lemma WrapCanBeLost(s: Receiver, destination: nat, n: nat, file: seq<byte>)
    requires |s.packet| == PACKET_SIZE && FileOfBlocks(file) && destination + |file| <= |s.memory|
    requires n % 256 == 254 && DATA_SIZE * (n + 1) <= |file|
    ensures var x := Session(1, Start(s, destination));
            AllAllowed(x, LateLoss(n), file) && Stuck(Play(x, LateLoss(n), file))
  {
    FreshIsInStep(s, destination, 0, file);
    LateLossSticks(Session(1, Start(s, destination)), n, file);
  }

  /** Rounds in which nothing goes wrong. */
  function CleanRounds(rounds: seq<Round>): nat {
    if rounds == [] then 0
    else One(rounds[0].fault.Clean? && !rounds[0].replyLost) + CleanRounds(rounds[1..])
  }

  /** The acknowledgement of a block numbered 255 mod 256 is never the one lost. */
  predicate SparesWrap(x: Session, rounds: seq<Round>, file: seq<byte>)
    requires x.rx.block == 0 || Live(x.rx)
    decreases |rounds|
  {
    rounds != [] && Sending(x, file) ==>
      && !LosesWrap(x, rounds[0])
      && SparesWrap(Next(x, rounds[0], file), rounds[1..], file)
  }

  /** Otherwise damage and loss only delay the transfer. Given as many clean rounds as
      there are blocks left, the whole file is delivered and acknowledged if and only
      if the acknowledgement of a block numbered 255 mod 256 is never lost, now or
      before. */
  lemma {:induction false} LinkDeliversIff(x: Session, rounds: seq<Round>, file: seq<byte>)
    requires InStep(x, file) && AllAllowed(x, rounds, file)
    requires DATA_SIZE * (x.sending - 1 + CleanRounds(rounds)) >= |file|
    ensures var y := Play(x, rounds, file);
            && (!Sending(y, file) <==> !Sending(x, file) || (!Stuck(x) && SparesWrap(x, rounds, file)))
            && (!Sending(y, file) ==> HoldsFile(y.rx, file))
    decreases |rounds|
  {
    LinkIsSafe(x, rounds, file);
    if rounds != [] && Sending(x, file) {
      if Stuck(x) {
        StuckForever(x, rounds, file);
      } else {
        RoundKeepsStep(x, rounds[0], file);
        LinkDeliversIff(Next(x, rounds[0], file), rounds[1..], file);
      }
    }
  }
}

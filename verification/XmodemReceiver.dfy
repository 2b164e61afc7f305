/** The receiver of system/xmodem.c as the code has it: one state structure and two
    buffers, updated in place, proved to act as XmodemModel says. */
module XmodemReceiver {
  import opened Bytes
  import opened XmodemFrame
  import opened XmodemModel

  datatype Status = Idle | Ready | Finished

  class Xmodem {
    var block: int
    var rcvd: int
    var retry: int
    var i: int
    var destination: int
    const packet: array<byte>
    const memory: array<byte>
    var sent: seq<byte>

    ghost function View(): Receiver
      reads this, packet, memory
    {
      Receiver(block, i, retry, rcvd, packet[..], memory[..], destination, sent)
    }

    /** The memory has room for the expected block, for the length counted at the
        end, and for the one slot below the buffer a stray frame can reach. */
    predicate Room()
      reads this
    {
      && DATA_SIZE <= destination
      && destination + DATA_SIZE * block <= memory.Length
      && destination + PACKET_SIZE * (block - 2) <= memory.Length
    }

    /** XmodemInit */
    constructor (memory: array<byte>)
      ensures block == 0 && this.memory == memory && fresh(packet) && packet.Length == PACKET_SIZE
      ensures packet as object != memory as object && sent == []
    {
      this.memory := memory;
      packet := new byte[PACKET_SIZE](_ => 0);
      block, rcvd, retry, i, destination, sent := 0, 0, 0, 0, 0, [];
    }

    /** Refuses exactly while a transfer is in progress. */
    method XmodemStart(destination: int) returns (started: bool)
      modifies this
      ensures started <==> old(block) == 0
      ensures View() == if started then Start(old(View()), destination) else old(View())
    {
      if block != 0 {
        return false;
      }
      block := 1;
      rcvd, retry, i := 0, 0, 0;
      this.destination := destination;
      return true;
    }

    method XmodemPoll(expired: bool, input: Option<byte>) returns (status: Status)
      requires Live(View()) && Room() && packet != memory
      modifies this, packet, memory
      ensures View() == Poll(old(View()), Event(expired, input))
      ensures status == Finished <==> block == 0
      ensures block != 0 ==> (status == Ready <==> input.Some?)
    {
      if expired {
        retry := retry + 1;
        if retry > DATA_RETRY {
          block := 0;
          return Finished;
        }
        i := 0;
        sent := sent + [NAK];
      }
      if input.None? {
        return Idle;
      }
      var result := input.value;
      if i == 0 && result == EOT {
        rcvd := (block - 2) * PACKET_SIZE;
        TrimEof();
        sent := sent + [ACK];
        block := 0;
        return Finished;
      }
      ghost var p := packet[..][i := result];
      packet[i] := result;
      i := i + 1;
      assert packet[..] == p;
      if i == PACKET_SIZE {
        Complete();
      }
      return Ready;
    }

    /** The part of XmodemPoll that takes EOF markers off the received length. */
    method TrimEof()
      requires 0 <= destination && destination + rcvd <= memory.Length
      modifies this`rcvd
      ensures rcvd == Trim(memory[..], destination, old(rcvd))
    {
      while rcvd > 0 && memory[destination + rcvd - 1] == CPMEOF
        invariant rcvd <= old(rcvd)
        invariant Trim(memory[..], destination, rcvd) == Trim(memory[..], destination, old(rcvd))
        decreases rcvd
      {
        rcvd := rcvd - 1;
      }
    }

    /** The part of XmodemPoll that handles a complete frame. */
    method Complete()
      requires block >= 1 && packet.Length == PACKET_SIZE && Room() && packet != memory
      modifies this, memory
      ensures View() == Completed(old(View()), packet[..])
    {
      var result := ProcessXmodem(packet, block % 256);
      if result >= 0 {
        Accept(result);
      } else {
        sent := sent + [NAK];
      }
      retry, i := 0, 0;
    }

    /** A frame numbered `result` has passed the checks. */
    method Accept(result: int)
      requires block >= 1 && packet.Length == PACKET_SIZE && packet != memory
      requires var at := destination + (Addressed(result, block) - 1) * DATA_SIZE;
               0 <= at && at + DATA_SIZE <= memory.Length
      modifies this`block, this`sent, memory
      ensures block == Addressed(result, old(block)) + 1 && sent == old(sent) + [ACK]
      ensures memory[..] == Written(old(memory[..]), destination + (Addressed(result, old(block)) - 1) * DATA_SIZE,
                                    Payload(packet[..]))
    {
      block := result + (block - block % 256);
      Store(destination + (block - 1) * DATA_SIZE);
      block := block + 1;
      sent := sent + [ACK];
    }

    /** The memcpy of a frame's data. */
    method Store(at: int)
      requires 0 <= at && at + DATA_SIZE <= memory.Length && packet.Length == PACKET_SIZE && packet != memory
      modifies memory
      ensures memory[..] == Written(old(memory[..]), at, Payload(packet[..]))
    {
      forall k | 0 <= k < DATA_SIZE {
        memory[at + k] := packet[3 + k];
      }
    }

    /** XmodemDownload on a given stream of events: polls until the transfer ends or
        the stream does. */
    method XmodemDownload(destination: int, events: seq<Event>) returns (length: int)
      requires packet.Length == PACKET_SIZE && packet != memory
      requires DATA_SIZE <= destination && destination + DATA_SIZE + |Inputs(events)| <= memory.Length
      modifies this, packet, memory
      ensures old(block) != 0 ==> length == -1 && View() == old(View())
      ensures old(block) == 0 ==> View() == Run(Start(old(View()), destination), events).(block := 0) && length == rcvd
    {
      var started := XmodemStart(destination);
      if !started {
        return -1;
      }
      ghost var start := View();
      var k := 0;
      assert events[0..] == events;
      var status := Idle;
      while k < |events| && status != Finished
        invariant 0 <= k <= |events|
        invariant block != 0 ==> PACKET_SIZE * (block - 1) + i + |Inputs(events[k..])| <= |Inputs(events)|
        invariant status == Finished <==> block == 0
        invariant (block == 0 || Live(View())) && this.destination == destination
        invariant Run(start, events) == Run(View(), events[k..])
      {
        assert events[k..][1..] == events[k + 1..];
        status := XmodemPoll(events[k].expired, events[k].input);
        k := k + 1;
      }
      block := 0;
      return rcvd;
    }
  }
}

/**
 The data toggle of usb/endpoint.c against section 8.6 of the USB 2.0
 specification, where the two data PIDs alternate packet by packet.
 */
module UsbEndpoint {

  datatype PID = Setup | Data0 | Data1

  datatype EndpointType = Control | Bulk | Interrupt | Isochronous

  /** One packet: the other data PID. The data stage after a setup packet begins
      with DATA1. */
  function Toggled(p: PID): PID {
    if p == Data1 then Data0 else Data1
  }

  function ToggledTimes(p: PID, packets: nat): PID {
    if packets == 0 then p else Toggled(ToggledTimes(p, packets - 1))
  }

  /** What EndpointSkipPID makes of the next PID after a data stage transfer. */
  function Skipped(p: PID, packets: nat): PID {
    match p
    case Setup => Data1
    case Data0 => if packets % 2 == 1 then Data1 else Data0
    case Data1 => if packets % 2 == 1 then Data0 else Data1
  }

  function SkippedAll(p: PID, groups: seq<nat>): PID
    decreases |groups|
  {
    if groups == [] then p else SkippedAll(Skipped(p, groups[0]), groups[1..])
  }

  function Total(groups: seq<nat>): nat {
    if groups == [] then 0 else groups[0] + Total(groups[1..])
  }

  lemma {:induction false} ToggleIsParity(p: PID, packets: nat)
    requires p != Setup
    ensures ToggledTimes(p, packets) == Skipped(p, packets)
  {
    if packets > 0 {
      ToggleIsParity(p, packets - 1);
    }
  }

  /** However packets are grouped into calls, the PID is that of toggling once per
      packet. */
  lemma {:induction false} GroupingDoesNotMatter(p: PID, groups: seq<nat>)
    requires p != Setup
    ensures SkippedAll(p, groups) == ToggledTimes(p, Total(groups))
    decreases |groups|
  {
    ToggleIsParity(p, Total(groups));
    if groups != [] {
      GroupingDoesNotMatter(Skipped(p, groups[0]), groups[1..]);
      ToggleIsParity(Skipped(p, groups[0]), Total(groups[1..]));
    }
  }

  /** A control transfer: one setup packet, then the data stage. The setup call is the
      only one whose packet count is not looked at, so counting it as one packet is
      exact. */
  lemma ControlTransferToggles(setup: nat, groups: seq<nat>)
    ensures SkippedAll(Setup, [setup] + groups) == ToggledTimes(Setup, 1 + Total(groups))
    ensures SkippedAll(Setup, [setup] + groups) == if Total(groups) % 2 == 0 then Data1 else Data0
  {
    assert ([setup] + groups)[1..] == groups;
    GroupingDoesNotMatter(Data1, groups);
    ToggleIsParity(Data1, Total(groups));
    FirstToggle(Total(groups));
  }

  lemma {:induction false} FirstToggle(n: nat)
    ensures ToggledTimes(Setup, 1 + n) == ToggledTimes(Data1, n)
  {
    if n > 0 {
      FirstToggle(n - 1);
    }
  }

  const MAX_PACKET_SIZE := 8

  class Endpoint {
    var device: nat
    var number: nat
    var kind: EndpointType
    var directionIn: bool
    var maxPacketSize: nat
    var interval: nat
    var nextPID: PID

    /** `device` is not NULL. */
    method EndpointControl(device: nat)
      requires device != 0
      modifies this
      ensures this.device == device && number == 0 && kind == Control && !directionIn
      ensures maxPacketSize == MAX_PACKET_SIZE && interval == 1 && nextPID == Setup
    {
      this.device, number, kind := device, 0, Control;
      directionIn, maxPacketSize, interval := false, MAX_PACKET_SIZE, 1;
      nextPID := Setup;
    }

    method EndpointGetNextPID(statusStage: bool) returns (pid: PID)
      requires statusStage ==> kind == Control
      ensures pid == if statusStage then Data1 else nextPID
    {
      if statusStage {
        return Data1;
      }
      return nextPID;
    }

    method EndpointSkipPID(packets: nat, statusStage: bool)
      requires kind != Isochronous && (statusStage ==> kind == Control)
      modifies this`nextPID
      ensures nextPID == if statusStage then Setup else Skipped(old(nextPID), packets)
    {
      if !statusStage {
        match nextPID {
          case Setup => nextPID := Data1;
          case Data0 =>
            if packets % 2 == 1 {
              nextPID := Data1;
            }
          case Data1 =>
            if packets % 2 == 1 {
              nextPID := Data0;
            }
        }
      } else {
        nextPID := Setup;
      }
    }

    /** Whole control transfers, one after another: each is its setup packet, its data
        stage in any grouping, and its status stage. After every one the endpoint is
        back at SETUP, and before each status stage the PID is the toggle of the packets
        since setup. */
    method Transfer(setup: nat, groups: seq<nat>) returns (last: PID)
      requires kind == Control && nextPID == Setup
      modifies this`nextPID
      ensures last == ToggledTimes(Setup, 1 + Total(groups)) == if Total(groups) % 2 == 0 then Data1 else Data0
      ensures nextPID == Setup
    {
      EndpointSkipPID(setup, false);
      var k := 0;
      ghost var all := [setup] + groups;
      assert all[1..] == groups;
      while k < |groups|
        invariant 0 <= k <= |groups|
        invariant SkippedAll(Setup, all) == SkippedAll(nextPID, groups[k..])
      {
        assert groups[k..][1..] == groups[k + 1..];
        EndpointSkipPID(groups[k], false);
        k := k + 1;
      }
      ControlTransferToggles(setup, groups);
      last := EndpointGetNextPID(false);
      EndpointSkipPID(0, true);
    }
  }
}

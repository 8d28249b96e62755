/** The start-up step of the bridge's main program that picks the first
    address the ground-station link sends to, and the arguments of the
    vehicle link's begin call (setup() in src/main.cpp).

    Before a ground station has been heard from, the ground-station link
    sends to the directed broadcast address of the local subnet: the local
    address with every host bit set (section 7 of RFC 922). The vehicle link
    is started with the last octet of the local address as its only explicit
    argument besides the link it forwards to. */
module Broadcast {

  /** An IPv4 address as its four octets, most significant first. */
  type IPv4 = s: seq<bv8> | |s| == 4 witness [0, 0, 0, 0]

  /** `b` keeps the network bits of `ip` and has every host bit set. */
  predicate IsBroadcastOctet(b: bv8, ip: bv8, mask: bv8) {
    b & mask == ip & mask && b | mask == 0xFF
  }

  /** One octet of the broadcast address: the network bits of `ip` (those
      set in `mask`) and a 1 in every host bit. In C the complement is taken
      on an `int`, and `0xFF &` cuts it back to eight bits; on `bv8` the
      complement `!mask` already has eight bits. */
  function BroadcastOctet(ip: bv8, mask: bv8): (b: bv8)
    ensures IsBroadcastOctet(b, ip, mask)
    ensures b & !mask == !mask
  {
    (ip & mask) | (0xFF & !mask)
  }

  /** The octet BroadcastOctet computes is the only one that keeps the
      network bits of `ip` and sets every host bit. */
  lemma BroadcastOctetUnique(ip: bv8, mask: bv8, c: bv8)
    requires IsBroadcastOctet(c, ip, mask)
    ensures c == BroadcastOctet(ip, mask)
  {
  }

  /** Applying the formula to an octet it produced changes nothing. */
  lemma BroadcastOctetIdempotent(ip: bv8, mask: bv8)
    ensures BroadcastOctet(BroadcastOctet(ip, mask), mask) == BroadcastOctet(ip, mask)
  {
  }

  /** The directed broadcast address of `ip` under `mask`, as a value. */
  predicate IsSubnetBroadcast(b: IPv4, ip: IPv4, mask: IPv4) {
    forall i :: 0 <= i < 4 ==> IsBroadcastOctet(b[i], ip[i], mask[i])
  }

  /** The address whose octets are the formula applied octet by octet. */
  function SubnetBroadcast(ip: IPv4, mask: IPv4): (b: IPv4)
    ensures IsSubnetBroadcast(b, ip, mask)
  {
    [BroadcastOctet(ip[0], mask[0]), BroadcastOctet(ip[1], mask[1]),
     BroadcastOctet(ip[2], mask[2]), BroadcastOctet(ip[3], mask[3])]
  }

  /** There is exactly one address with the network part of `ip` and all
      host bits set: SubnetBroadcast(ip, mask) has them, and any address
      that has them is that one. */
  lemma SubnetBroadcastUnique(b: IPv4, ip: IPv4, mask: IPv4)
    ensures IsSubnetBroadcast(SubnetBroadcast(ip, mask), ip, mask)
    ensures IsSubnetBroadcast(b, ip, mask) <==> b == SubnetBroadcast(ip, mask)
  {
    if IsSubnetBroadcast(b, ip, mask) {
      forall i | 0 <= i < 4
        ensures b[i] == SubnetBroadcast(ip, mask)[i]
      {
        BroadcastOctetUnique(ip[i], mask[i], b[i]);
      }
    }
  }

  /** The loop of setup() that turns a copy of the local address into the
      broadcast address, one octet at a time, in place. */
  method ToSubnetBroadcast(gcsIp: array<bv8>, mask: IPv4)
    requires gcsIp.Length == 4
    modifies gcsIp
    ensures forall i :: 0 <= i < 4 ==> gcsIp[i] == BroadcastOctet(old(gcsIp[i]), mask[i])
  {
    for i := 0 to 4
      invariant forall k :: 0 <= k < i ==> gcsIp[k] == BroadcastOctet(old(gcsIp[k]), mask[k])
      invariant forall k :: i <= k < 4 ==> gcsIp[k] == old(gcsIp[k])
    {
      gcsIp[i] := BroadcastOctet(gcsIp[i], mask[i]);
    }
  }

  /** The arguments of the vehicle link's begin call, after the link it
      forwards to: begin(forwardTo, IPAddress ownIP, uint8_t system_id = 0,
      uint8_t component_id = 0). `ownIp` is the integer handed to IPAddress's
      32-bit constructor. */
  datatype VehicleBegin = VehicleBegin(ownIp: int, systemId: bv8, componentId: bv8)

  /** The vehicle begin call as written, `Vehicle.begin(&GCS, localIP[3])`:
      the last local octet is the one explicit argument, so it lands in
      `ownIP`, and the system id and component id take their defaults, 0. */
  function VehicleBeginArgs(localIp: IPv4): (v: VehicleBegin)
    ensures v.ownIp == localIp[3] as int && 0 <= v.ownIp < 256
    ensures v.systemId == 0 && v.componentId == 0
  {
    VehicleBegin(localIp[3] as int, 0, 0)
  }

  /** The call the comment beside it describes: the last local octet is the
      vehicle's MAVLink system id. Only the system id differs from the call as
      written. */
  function IntendedVehicleBeginArgs(localIp: IPv4): (v: VehicleBegin)
    ensures v.systemId == localIp[3]
    ensures v == VehicleBeginArgs(localIp).(systemId := localIp[3])
    ensures v.systemId != VehicleBeginArgs(localIp).systemId <==> localIp[3] != 0
  {
    VehicleBegin(localIp[3] as int, localIp[3], 0)
  }

  /** With local address 192.168.4.7 the call as written starts the vehicle
      link with system id 0, not 7. */
  lemma SystemIdIsNotLastOctet()
    ensures VehicleBeginArgs([192, 168, 4, 7]).systemId == 0
    ensures IntendedVehicleBeginArgs([192, 168, 4, 7]).systemId == 7
  {
  }

  /** The arguments setup() passes to the two links' begin calls: the
      ground-station link gets the subnet broadcast address as its first
      peer; the vehicle link gets the arguments of the call as written. */
  method LinkIdentities(localIp: IPv4, mask: IPv4) returns (gcsIp: IPv4, vehicle: VehicleBegin)
    ensures IsSubnetBroadcast(gcsIp, localIp, mask)
    ensures gcsIp == SubnetBroadcast(localIp, mask)
    ensures vehicle.ownIp == localIp[3] as int
    ensures vehicle.systemId == 0 && vehicle.componentId == 0
  {
    var buffer := new bv8[4](i requires 0 <= i < 4 => localIp[i]);
    ToSubnetBroadcast(buffer, mask);
    gcsIp := buffer[..];
    vehicle := VehicleBeginArgs(localIp);
  }

  /** With the access-point mask 255.255.255.0 the broadcast address is the
      local address with its last octet replaced by 255. */
  lemma AccessPointBroadcast(b: IPv4, ip: IPv4)
    requires IsSubnetBroadcast(b, ip, [255, 255, 255, 0])
    ensures b == ip[..3] + [255]
  {
  }
}

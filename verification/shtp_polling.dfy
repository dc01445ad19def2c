/**
 How many packets the BNO08x polling loop handles: `_process_available_packets` with a
 limit, followed turn by turn over the states the hub passes through.
 */
module ShtpPolling {
  import opened Maybe
  import opened ShtpTransport

  /** One turn of the polling loop that handles a packet: data is ready, the packet is
      read, and handling it raises nothing. */
  function ServeOne(h: Hub): (r: Option<Hub>)
    requires Valid(h)
    ensures r.Some? ==> Valid(r.value) && |r.value.bus.incoming| < |h.bus.incoming|
  {
    match DataReady(h)
    case Raised(_, _) => None
    case Done(ready, h1) =>
      if !ready then None
      else
        match ReadPacket(h1)
        case Raised(_, _) => None
        case Done(packet, h2) =>
          match HandlePacket(h2, packet)
          case Raised(_, _) => None
          case Done(_, h3) => Some(h3)
  }

  /** With a limit, the loop handles one packet more than the limit: from the count
      just below `maxPackets`, two more packets are handled, and the next ready header
      ends the loop with a count of `maxPackets + 1`. With `maxPackets` = 1 the count
      starts at 0, so three ready packets see two of them handled. */
  lemma ProcessAvailableOneExtra(h0: Hub, h1: Hub, h2: Hub, maxPackets: nat)
    requires maxPackets > 0
    requires Valid(h0) && ServeOne(h0) == Some(h1) && ServeOne(h1) == Some(h2)
    requires DataReady(h2).Done? && DataReady(h2).value
    ensures ProcessAvailable(h0, maxPackets, maxPackets - 1) == Done(maxPackets + 1, DataReady(h2).hub)
  {
    ServeStep(h0, h1, maxPackets, maxPackets - 1);
    ServeStep(h1, h2, maxPackets, maxPackets);
    StopAtLimit(h2, maxPackets, maxPackets + 1);
  }

  /** Below the limit, a handled packet is one turn of the loop. */
  lemma ServeStep(h: Hub, next: Hub, maxPackets: nat, count: nat)
    requires Valid(h) && (maxPackets == 0 || count <= maxPackets) && ServeOne(h) == Some(next)
    ensures ProcessAvailable(h, maxPackets, count) == ProcessAvailable(next, maxPackets, count + 1)
  {
  }

  /** Past the limit, a ready header ends the loop with the count unchanged. */
  lemma StopAtLimit(h: Hub, maxPackets: nat, count: nat)
    requires Valid(h) && maxPackets > 0 && count > maxPackets
    requires DataReady(h).Done? && DataReady(h).value
    ensures ProcessAvailable(h, maxPackets, count) == Done(count, DataReady(h).hub)
  {
  }
}

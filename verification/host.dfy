/** Host records as the registry hands them to the handlers: a host with its network
    interfaces, tags and provisioning flag. The registry itself is not part of this model. */
module Model {
  import opened Wrappers
  import opened Net

  datatype NetInterface = NetInterface(mac: seq<Byte>, ip: IPv4, fqdn: string)

  datatype Host = Host(
    id: string,
    name: string,
    interfaces: seq<NetInterface>,
    provision: bool,
    tags: set<string>,
    bootSpec: string)

  /** `Host.Interface`: the interface whose hardware address equals `mac`, if there is one. */
  function Interface(h: Host, mac: seq<Byte>): (r: Option<NetInterface>)
    ensures r.Some? ==> r.value in h.interfaces && r.value.mac == mac
    ensures r.None? <==> forall n :: n in h.interfaces ==> n.mac != mac
  {
    FindInterface(h.interfaces, mac)
  }

  /** The first interface of `nics` with hardware address `mac`. */
  function FindInterface(nics: seq<NetInterface>, mac: seq<Byte>): (r: Option<NetInterface>)
    ensures r.Some? ==> r.value in nics && r.value.mac == mac
    ensures r.None? <==> forall n :: n in nics ==> n.mac != mac
  {
    if |nics| == 0 then None
    else if nics[0].mac == mac then Some(nics[0])
    else FindInterface(nics[1..], mac)
  }

  /** Within one host, no two interfaces share a hardware address. */
  ghost predicate UniqueMacs(h: Host)
  {
    forall i, j :: 0 <= i < j < |h.interfaces| ==> h.interfaces[i].mac != h.interfaces[j].mac
  }

  /** With unique hardware addresses the lookup returns THE interface with that address. */
  lemma InterfaceIsUnique(h: Host, n: NetInterface)
    requires UniqueMacs(h)
    requires n in h.interfaces
    ensures Interface(h, n.mac) == Some(n)
  {
    var r := Interface(h, n.mac);
    var i :| 0 <= i < |h.interfaces| && h.interfaces[i] == n;
    var j :| 0 <= j < |h.interfaces| && h.interfaces[j] == r.value;
  }

  /** `Host.HasTags` for the single tag the handlers ask about. */
  predicate HasTag(h: Host, tag: string)
  {
    tag in h.tags
  }
}

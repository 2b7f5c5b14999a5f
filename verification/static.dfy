/** The static DHCPv4 decision engine: for a host already looked up by hardware address, it
    fills the reply to a DISCOVER or REQUEST (staticHandler4) and validates a REQUEST before
    acknowledging or refusing it (staticAckHandler4), following section 4.3.2 of RFC 2131. */
module Static {
  import opened Wrappers
  import opened Net
  import opened Format
  import opened Dhcpv4
  import opened Model
  import Shuffle

  /** The server configuration the handlers read; loaded once and never changed by them. */
  datatype Server = Server(
    subnets: map<IPv4, IPSet>,      // router address -> the subnet it serves
    netmask: Option<IPv4>,          // global fallback mask; None is a nil net.IPMask
    routerOctet4: int,              // offset added to the masked last octet
    routerIP: Option<IPv4>,         // global fallback router
    leaseTime: int,                 // a time.Duration
    dnsServers: seq<IPv4>,
    mtu: int,
    domainSearchList: seq<string>,
    provisionScheme: string,
    provisionPort: int)

  const TagDellBMP: string := "dellbmp"
  const TagDellZTD: string := "dellztd"

  /** Every option code the fill path may write. */
  const FillCodes: set<OptionCode> := {OptSubnetMask, OptRouter, OptDomainNameServer, OptHostName,
    OptInterfaceMTU, OptIPAddressLeaseTime, OptBootfileName, OptDomainSearch, OptPXELinuxConfigFile,
    OptDellZTDProvisionURL}

  /** Options `a` and `b` agree on every code in `codes`. */
  ghost predicate SameOn(a: Response, b: Response, codes: set<OptionCode>)
  {
    forall c :: c in codes ==> OptionOf(a, c) == OptionOf(b, c)
  }

  // ---------------------------------------------------------------- router and netmask

  /** Some configured subnet contains the address. */
  ghost predicate InSomeSubnet(s: Server, ip: IPv4)
  {
    exists k :: k in s.subnets && Contains(s.subnets[k], ip)
  }

  /** The fallback can run for this address: a positive router offset masks the address with
      the global netmask and then indexes its last octet, which needs a netmask. */
  ghost predicate FallbackReady(s: Server, ip: IPv4)
  {
    !InSomeSubnet(s, ip) && s.routerOctet4 > 0 ==> s.netmask.Some?
  }

  /** Go's `byte(n)`: the low 8 bits of `n`, that is, `n` modulo 256. */
  function LowByte(n: int): Byte
  {
    (n % 256) as bv8
  }

  /** The router the offset rule computes: the address masked by the global netmask, with
      `byte(offset)` added to the last octet in 8-bit arithmetic (`router[3] += ...`). */
  function OffsetRouter(ip: IPv4, mask: IPv4, offset: int): (r: IPv4)
    ensures r[..3] == MaskAddr(ip, mask)[..3]
    ensures r[3] - MaskAddr(ip, mask)[3] == LowByte(offset)
  {
    var m := MaskAddr(ip, mask);
    [m[0], m[1], m[2], m[3] + LowByte(offset)]
  }

  /** The per-subnet branch: the subnet's router and the mask of the subnet's first prefix. */
  function SubnetRouter(router: IPv4, subnet: IPSet, resp: Response): (r: Response)
    requires |subnet.prefixes| > 0
    ensures Sets(r, OptRouter, IPs([router]))
    ensures Sets(r, OptSubnetMask, Mask(CIDRMask(FirstBits(subnet))))
    ensures OnlyTouches(resp, r, {OptSubnetMask, OptRouter})
  {
    UpdateOption(UpdateOption(resp, OptRouter, IPs([router])), OptSubnetMask, Mask(CIDRMask(FirstBits(subnet))))
  }

  /** The global fallback, taken when no subnet contains the address. */
  function FallbackRouter(s: Server, ip: IPv4, resp: Response): (r: Response)
    requires s.routerOctet4 > 0 ==> s.netmask.Some?
    ensures s.netmask.Some? ==> Sets(r, OptSubnetMask, Mask(s.netmask.value))
    ensures s.netmask.None? ==> Keeps(resp, r, OptSubnetMask)
    ensures s.routerOctet4 > 0 ==> Sets(r, OptRouter, IPs([OffsetRouter(ip, s.netmask.value, s.routerOctet4)]))
    ensures s.routerOctet4 <= 0 && s.routerIP.Some? ==> Sets(r, OptRouter, IPs([s.routerIP.value]))
    ensures s.routerOctet4 <= 0 && s.routerIP.None? ==> Keeps(resp, r, OptRouter)
    ensures OnlyTouches(resp, r, {OptSubnetMask, OptRouter})
  {
    var masked := if s.netmask.Some? then UpdateOption(resp, OptSubnetMask, Mask(s.netmask.value)) else resp;
    var router :=
      if s.routerOctet4 > 0 then Some(OffsetRouter(ip, s.netmask.value, s.routerOctet4))
      else s.routerIP;
    if router.Some? then UpdateOption(masked, OptRouter, IPs([router.value])) else masked
  }

  /** What the router and mask options of `r` may be after `setRouter` ran on `base` for an
      interface with address `ip`. The subnets sit in a Go map, whose iteration order is
      unspecified, so when several subnets contain the address any one of them may win. */
  ghost predicate RouterOptions(s: Server, ip: IPv4, base: Response, r: Response)
  {
    if InSomeSubnet(s, ip) then
      exists k :: k in s.subnets && Contains(s.subnets[k], ip)
        && Sets(r, OptRouter, IPs([k]))
        && Sets(r, OptSubnetMask, Mask(CIDRMask(FirstBits(s.subnets[k]))))
    else
      && (s.routerOctet4 > 0 ==> s.netmask.Some?)
      && SameOn(r, FallbackRouter(s, ip, base), {OptSubnetMask, OptRouter})
  }

  /** `setRouter`: ranges over the subnet map in an arbitrary order and stops at the first
      subnet that contains the interface address; without one, applies the fallback. */
  method SetRouter(s: Server, nic: NetInterface, resp: Response) returns (r: Response)
    requires FallbackReady(s, nic.ip)
    ensures RouterOptions(s, nic.ip, resp, r)
    ensures OnlyTouches(resp, r, {OptSubnetMask, OptRouter})
  {
    var pending := s.subnets.Keys;
    while pending != {}
      invariant pending <= s.subnets.Keys
      invariant forall k :: k in s.subnets && k !in pending ==> !Contains(s.subnets[k], nic.ip)
      decreases pending
    {
      var k :| k in pending;
      if Contains(s.subnets[k], nic.ip) {
        r := SubnetRouter(k, s.subnets[k], resp);
        return;
      }
      pending := pending - {k};
    }
    r := FallbackRouter(s, nic.ip, resp);
  }

  // ---------------------------------------------------------------- vendor provisioning

  /** `model.NewBootToken(hostID, mac)` for the n-th mint of one exchange. The issuer is not
      part of this model; the ordinal stands for what makes two mints differ (issue time,
      randomness). The caller discards the issuer's error, so a failed mint is just another
      string here. */
  type Minter = (string, string, nat) -> string

  const KernelPath: string := "/file/kernel"
  const KickstartPath: string := "/kickstart"

  /** `<scheme>://<server>:<port>`: after the scheme's `://` comes an authority with no `/`,
      so a path appended to it starts a new segment. */
  function BaseURL(s: Server, serverIP: IPv4): (u: string)
    ensures |u| > |s.provisionScheme| + 3
    ensures u[..|s.provisionScheme|] == s.provisionScheme && u[|s.provisionScheme|..|s.provisionScheme| + 3] == "://"
    ensures forall k :: |s.provisionScheme| + 3 <= k < |u| ==> u[k] != '/'
  {
    s.provisionScheme + "://" + IPString(serverIP) + ":" + IntString(s.provisionPort)
  }

  /** `<scheme>://<server>:<port>/boot/<token><path>`: the first `/` after the scheme opens
      the `/boot/` segment, and everything after it is the token followed by the path. */
  function BootURL(s: Server, serverIP: IPv4, token: string, path: string): (u: string)
    ensures var n := |BaseURL(s, serverIP)|;
      && |u| == n + 6 + |token| + |path|
      && u[..|s.provisionScheme| + 3] == s.provisionScheme + "://"
      && (forall k :: |s.provisionScheme| + 3 <= k < n ==> u[k] != '/')
      && u[n..n + 6] == "/boot/"
      && u[n + 6..] == token + path
  {
    BaseURL(s, serverIP) + "/boot/" + token + path
  }

  /** What the vendor options of `r` are after `setZTD` ran on `base`: the BMP flow writes the
      boot file name and the PXELINUX config file from ONE token; the ZTD flow writes option 240
      from its own mint, which is the second of the exchange when the BMP flow ran first. */
  ghost predicate VendorOptions(s: Server, host: Host, nic: NetInterface, serverIP: IPv4, mint: Minter,
                                base: Response, r: Response)
  {
    var mac := MacString(nic.mac);
    var bmp := host.provision && HasTag(host, TagDellBMP);
    var ztd := host.provision && HasTag(host, TagDellZTD);
    && (if bmp then
          && Sets(r, OptBootfileName, Text(BootURL(s, serverIP, mint(host.id, mac, 0), KernelPath)))
          && Sets(r, OptPXELinuxConfigFile, Text(BootURL(s, serverIP, mint(host.id, mac, 0), KickstartPath)))
        else Keeps(base, r, OptBootfileName) && Keeps(base, r, OptPXELinuxConfigFile))
    && (if ztd then
          Sets(r, OptDellZTDProvisionURL,
               Text(BootURL(s, serverIP, mint(host.id, mac, if bmp then 1 else 0), KickstartPath)))
        else Keeps(base, r, OptDellZTDProvisionURL))
  }

  /** `setZTD`: tag dispatch for hosts flagged for provisioning; the two flows are independent. */
  function SetZTD(s: Server, host: Host, nic: NetInterface, serverIP: IPv4, resp: Response, mint: Minter): (r: Response)
    ensures !host.provision ==> r == resp
    ensures VendorOptions(s, host, nic, serverIP, mint, resp, r)
    ensures OnlyTouches(resp, r, {OptBootfileName, OptPXELinuxConfigFile, OptDellZTDProvisionURL})
  {
    if !host.provision then resp
    else
      var mac := MacString(nic.mac);
      var bmp := HasTag(host, TagDellBMP);
      var afterBmp :=
        if bmp then
          var token := mint(host.id, mac, 0);
          UpdateOption(UpdateOption(resp, OptBootfileName, Text(BootURL(s, serverIP, token, KernelPath))),
                       OptPXELinuxConfigFile, Text(BootURL(s, serverIP, token, KickstartPath)))
        else resp;
      if HasTag(host, TagDellZTD) then
        var token := mint(host.id, mac, if bmp then 1 else 0);
        UpdateOption(afterBmp, OptDellZTDProvisionURL, Text(BootURL(s, serverIP, token, KickstartPath)))
      else afterBmp
  }

  // ---------------------------------------------------------------- fill path

  /** What option 6 of `r` is: the single configured server as is, or a reordering of several,
      and only when the client asked for it. */
  ghost predicate DnsOption(s: Server, req: Request, base: Response, r: Response)
  {
    var asked := IsOptionRequested(req, OptDomainNameServer);
    if asked && |s.dnsServers| == 1 then Sets(r, OptDomainNameServer, IPs(s.dnsServers))
    else if asked && |s.dnsServers| > 1 then
      && OptionOf(r, OptDomainNameServer).Some?
      && OptionOf(r, OptDomainNameServer).value.IPs?
      && multiset(OptionOf(r, OptDomainNameServer).value.addrs) == multiset(s.dnsServers)
    else Keeps(base, r, OptDomainNameServer)
  }

  /** The reply the fill path builds from `base` for the matched interface `nic`, option by
      option; every option outside `FillCodes` is left as it was. */
  ghost predicate Filled(s: Server, host: Host, nic: NetInterface, serverIP: IPv4, req: Request,
                         base: Response, mint: Minter, r: Response)
  {
    && r.yiaddr == Some(nic.ip)
    && r.ciaddr == base.ciaddr
    && RouterOptions(s, nic.ip, base, r)
    && VendorOptions(s, host, nic, serverIP, mint, base, r)
    && Sets(r, OptIPAddressLeaseTime, Duration(s.leaseTime))
    && DnsOption(s, req, base, r)
    && (if IsOptionRequested(req, OptInterfaceMTU)
        then Sets(r, OptInterfaceMTU, Bytes(Uint16Bytes(ToUint16(s.mtu))))
        else Keeps(base, r, OptInterfaceMTU))
    && (if |nic.fqdn| > 0 then Sets(r, OptHostName, Text(nic.fqdn)) else Keeps(base, r, OptHostName))
    && (if |s.domainSearchList| > 0
        then Sets(r, OptDomainSearch, Labels(s.domainSearchList))
        else Keeps(base, r, OptDomainSearch))
    && forall c :: c !in FillCodes ==> Keeps(base, r, c)
  }

  /** The router choice made on one response carries over to another with the same options. */
  lemma RouterOptionsTransfer(s: Server, ip: IPv4, b1: Response, r1: Response, b2: Response, r2: Response)
    requires RouterOptions(s, ip, b1, r1)
    requires SameOn(b1, b2, {OptSubnetMask, OptRouter}) && SameOn(r1, r2, {OptSubnetMask, OptRouter})
    ensures RouterOptions(s, ip, b2, r2)
  {
    if InSomeSubnet(s, ip) {
      var k :| k in s.subnets && Contains(s.subnets[k], ip)
        && Sets(r1, OptRouter, IPs([k]))
        && Sets(r1, OptSubnetMask, Mask(CIDRMask(FirstBits(s.subnets[k]))));
      assert OptionOf(r2, OptRouter) == OptionOf(r1, OptRouter);
      assert OptionOf(r2, OptSubnetMask) == OptionOf(r1, OptSubnetMask);
    } else {
      var f1 := FallbackRouter(s, ip, b1);
      var f2 := FallbackRouter(s, ip, b2);
      assert OptionOf(b1, OptRouter) == OptionOf(b2, OptRouter);
      assert OptionOf(b1, OptSubnetMask) == OptionOf(b2, OptSubnetMask);
      assert SameOn(f1, f2, {OptSubnetMask, OptRouter});
    }
  }

  /** The interface matched by the request, when its fallback can run. */
  ghost predicate MatchReady(s: Server, host: Host, mac: seq<Byte>)
  {
    Interface(host, mac).Some? ==> FallbackReady(s, Interface(host, mac).value.ip)
  }

  /** The options `staticHandler4` writes after `setZTD`, as `r` carries them over `base`:
      the lease time always; the name servers `dns` when asked for and some are configured;
      the MTU when asked for; the host name when the interface has one; the search list when
      it is not empty. Nothing else changes. */
  ghost predicate LaterSet(s: Server, req: Request, nic: NetInterface, base: Response, dns: seq<IPv4>, r: Response)
  {
    var askedDns := IsOptionRequested(req, OptDomainNameServer) && |s.dnsServers| > 0;
    && Sets(r, OptIPAddressLeaseTime, Duration(s.leaseTime))
    && (if askedDns then Sets(r, OptDomainNameServer, IPs(dns)) else Keeps(base, r, OptDomainNameServer))
    && (if IsOptionRequested(req, OptInterfaceMTU)
        then Sets(r, OptInterfaceMTU, Bytes(Uint16Bytes(ToUint16(s.mtu))))
        else Keeps(base, r, OptInterfaceMTU))
    && (if |nic.fqdn| > 0 then Sets(r, OptHostName, Text(nic.fqdn)) else Keeps(base, r, OptHostName))
    && (if |s.domainSearchList| > 0
        then Sets(r, OptDomainSearch, Labels(s.domainSearchList))
        else Keeps(base, r, OptDomainSearch))
    && OnlyTouches(base, r, {OptIPAddressLeaseTime, OptDomainNameServer, OptInterfaceMTU, OptHostName, OptDomainSearch})
  }

  /** The options `staticHandler4` writes after `setZTD`, with `dns` the name-server list to
      send (the configured one, or a reordering of it). */
  function LaterOptions(s: Server, req: Request, nic: NetInterface, base: Response, dns: seq<IPv4>): (r: Response)
    ensures LaterSet(s, req, nic, base, dns, r)
  {
    var askDns := IsOptionRequested(req, OptDomainNameServer) && |s.dnsServers| > 0;
    var askMtu := IsOptionRequested(req, OptInterfaceMTU);
    var leased := UpdateOption(base, OptIPAddressLeaseTime, Duration(s.leaseTime));
    var named := if askDns then UpdateOption(leased, OptDomainNameServer, IPs(dns)) else leased;
    var sized := if askMtu then UpdateOption(named, OptInterfaceMTU, Bytes(Uint16Bytes(ToUint16(s.mtu)))) else named;
    var hosted := if |nic.fqdn| > 0 then UpdateOption(sized, OptHostName, Text(nic.fqdn)) else sized;
    var r := if |s.domainSearchList| > 0 then UpdateOption(hosted, OptDomainSearch, Labels(s.domainSearchList)) else hosted;
    assert OnlyTouches(base, named, {OptIPAddressLeaseTime, OptDomainNameServer});
    assert OnlyTouches(base, sized, {OptIPAddressLeaseTime, OptDomainNameServer, OptInterfaceMTU});
    assert OnlyTouches(base, hosted, {OptIPAddressLeaseTime, OptDomainNameServer, OptInterfaceMTU, OptHostName});
    r
  }

  /** The three stages of the fill path: `setRouter` took the reply with `yiaddr` set to `r1`,
      `setZTD` took `r1` to `r2`, and the later options took `r2` to `r`; the name-server list
      is the configured one or (for several servers) a reordering of it. */
  ghost predicate StagesReady(s: Server, host: Host, nic: NetInterface, serverIP: IPv4, req: Request,
                              resp: Response, mint: Minter, r1: Response, r2: Response, r: Response, dns: seq<IPv4>)
  {
    && RouterOptions(s, nic.ip, resp.(yiaddr := Some(nic.ip)), r1)
    && OnlyTouches(resp.(yiaddr := Some(nic.ip)), r1, {OptSubnetMask, OptRouter})
    && VendorOptions(s, host, nic, serverIP, mint, r1, r2)
    && OnlyTouches(r1, r2, {OptBootfileName, OptPXELinuxConfigFile, OptDellZTDProvisionURL})
    && LaterSet(s, req, nic, r2, dns, r)
    && (|s.dnsServers| == 1 ==> dns == s.dnsServers)
    && multiset(dns) == multiset(s.dnsServers)
  }

  /** The three stages together build a `Filled` reply. */
  lemma FilledFromStages(s: Server, host: Host, nic: NetInterface, serverIP: IPv4, req: Request,
                         resp: Response, mint: Minter, r1: Response, r2: Response, r: Response, dns: seq<IPv4>)
    requires StagesReady(s, host, nic, serverIP, req, resp, mint, r1, r2, r, dns)
    ensures Filled(s, host, nic, serverIP, req, resp, mint, r)
  {
    StagesRouter(s, host, nic, serverIP, req, resp, mint, r1, r2, r, dns);
    StagesVendor(s, host, nic, serverIP, req, resp, mint, r1, r2, r, dns);
    StagesLater(s, host, nic, serverIP, req, resp, mint, r1, r2, r, dns);
    StagesFrame(s, host, nic, serverIP, req, resp, mint, r1, r2, r, dns);
  }

  lemma StagesRouter(s: Server, host: Host, nic: NetInterface, serverIP: IPv4, req: Request,
                     resp: Response, mint: Minter, r1: Response, r2: Response, r: Response, dns: seq<IPv4>)
    requires StagesReady(s, host, nic, serverIP, req, resp, mint, r1, r2, r, dns)
    ensures RouterOptions(s, nic.ip, resp, r)
  {
    var r0 := resp.(yiaddr := Some(nic.ip));
    assert Keeps(r1, r2, OptSubnetMask) && Keeps(r1, r2, OptRouter);
    assert Keeps(r2, r, OptSubnetMask) && Keeps(r2, r, OptRouter);
    RouterOptionsTransfer(s, nic.ip, r0, r1, resp, r);
  }

  lemma StagesVendor(s: Server, host: Host, nic: NetInterface, serverIP: IPv4, req: Request,
                     resp: Response, mint: Minter, r1: Response, r2: Response, r: Response, dns: seq<IPv4>)
    requires StagesReady(s, host, nic, serverIP, req, resp, mint, r1, r2, r, dns)
    ensures VendorOptions(s, host, nic, serverIP, mint, resp, r)
  {
    var r0 := resp.(yiaddr := Some(nic.ip));
    assert Keeps(r2, r, OptBootfileName) && Keeps(r2, r, OptPXELinuxConfigFile) && Keeps(r2, r, OptDellZTDProvisionURL);
    assert Keeps(r0, r1, OptBootfileName) && Keeps(r0, r1, OptPXELinuxConfigFile) && Keeps(r0, r1, OptDellZTDProvisionURL);
  }

  lemma StagesLater(s: Server, host: Host, nic: NetInterface, serverIP: IPv4, req: Request,
                    resp: Response, mint: Minter, r1: Response, r2: Response, r: Response, dns: seq<IPv4>)
    requires StagesReady(s, host, nic, serverIP, req, resp, mint, r1, r2, r, dns)
    ensures DnsOption(s, req, resp, r)
    ensures if IsOptionRequested(req, OptInterfaceMTU)
      then Sets(r, OptInterfaceMTU, Bytes(Uint16Bytes(ToUint16(s.mtu))))
      else Keeps(resp, r, OptInterfaceMTU)
    ensures if |nic.fqdn| > 0 then Sets(r, OptHostName, Text(nic.fqdn)) else Keeps(resp, r, OptHostName)
    ensures if |s.domainSearchList| > 0
      then Sets(r, OptDomainSearch, Labels(s.domainSearchList))
      else Keeps(resp, r, OptDomainSearch)
  {
    var r0 := resp.(yiaddr := Some(nic.ip));
    assert Keeps(r1, r2, OptDomainNameServer) && Keeps(r0, r1, OptDomainNameServer);
    assert Keeps(r1, r2, OptInterfaceMTU) && Keeps(r0, r1, OptInterfaceMTU);
    assert Keeps(r1, r2, OptHostName) && Keeps(r0, r1, OptHostName);
    assert Keeps(r1, r2, OptDomainSearch) && Keeps(r0, r1, OptDomainSearch);
  }

  lemma StagesFrame(s: Server, host: Host, nic: NetInterface, serverIP: IPv4, req: Request,
                    resp: Response, mint: Minter, r1: Response, r2: Response, r: Response, dns: seq<IPv4>)
    requires StagesReady(s, host, nic, serverIP, req, resp, mint, r1, r2, r, dns)
    ensures r.yiaddr == Some(nic.ip) && r.ciaddr == resp.ciaddr
    ensures forall c :: c !in FillCodes ==> Keeps(resp, r, c)
  {
    var r0 := resp.(yiaddr := Some(nic.ip));
    forall c | c !in FillCodes
      ensures Keeps(resp, r, c)
    {
      assert Keeps(r0, r1, c) && Keeps(r1, r2, c) && Keeps(r2, r, c);
    }
  }

  /** `staticHandler4`: an unknown hardware address leaves the reply untouched (and is not an
      error); a known one gets its registered address and the options of `Filled`. Several
      name servers are reordered by `rand.Shuffle` on a copy of the configured list. */
  method StaticHandler(s: Server, host: Host, serverIP: IPv4, req: Request, resp: Response, mint: Minter)
    returns (r: Response)
    requires MatchReady(s, host, req.chaddr)
    ensures Interface(host, req.chaddr).None? ==> r == resp
    ensures Interface(host, req.chaddr).Some? ==>
      Filled(s, host, Interface(host, req.chaddr).value, serverIP, req, resp, mint, r)
  {
    var found := Interface(host, req.chaddr);
    if found.None? {
      return resp;
    }
    var nic := found.value;
    var r1 := SetRouter(s, nic, resp.(yiaddr := Some(nic.ip)));
    var r2 := SetZTD(s, host, nic, serverIP, r1, mint);
    var dns := s.dnsServers;
    if |s.dnsServers| > 1 && IsOptionRequested(req, OptDomainNameServer) {
      dns := Shuffle.Shuffle(s.dnsServers);
    }
    r := LaterOptions(s, req, nic, r2, dns);
    FilledFromStages(s, host, nic, serverIP, req, resp, mint, r1, r2, r, dns);
  }

  // ---------------------------------------------------------------- REQUEST validation

  datatype AckError =
    | ServerAddrMismatch(got: IPv4, want: IPv4)         // siaddr names another server
    | ServerIdentifierMismatch(got: IPv4, want: IPv4)   // option 54 names another server

  /** The field names some server, and not this one. */
  predicate NamesOtherServer(a: Option<IPv4>, serverIP: IPv4)
    ensures a.None? || a == Some(Unspecified) || a == Some(serverIP) ==> !NamesOtherServer(a, serverIP)
    ensures a.Some? && a.value != Unspecified && a.value != serverIP ==> NamesOtherServer(a, serverIP)
  {
    IsSetNonZero(a) && a.value != serverIP
  }

  /** The address the client claims: option 50 when present and not 0.0.0.0, else `ciaddr`. */
  function ClaimedAddress(req: Request): (c: Option<IPv4>)
    ensures c == req.requestedIP || c == req.ciaddr
    ensures IsSetNonZero(req.requestedIP) ==> c == req.requestedIP
    ensures !IsSetNonZero(req.requestedIP) ==> c == req.ciaddr
    ensures IsSetNonZero(c) <==> IsSetNonZero(req.requestedIP) || IsSetNonZero(req.ciaddr)
  {
    if IsSetNonZero(req.requestedIP) then req.requestedIP else req.ciaddr
  }

  const NakLead: string := "Requested IP address "
  const NakRest: string := "does not match address configured in Grendel: "

  /** The DHCPNAK message text naming the claimed and the registered address. */
  function NakMessage(claimed: Option<IPv4>, registered: IPv4): (m: string)
    ensures |m| > |NakLead| + |NakRest| + |IPString(registered)|
    ensures m[..|NakLead|] == NakLead
    ensures m[|m| - |IPString(registered)|..] == IPString(registered)
  {
    NakLead + ShowIP(claimed) + " " + NakRest + IPString(registered)
  }

  /** The REQUEST is for this server and claims the registered address. */
  ghost predicate Acknowledges(serverIP: IPv4, req: Request, nic: NetInterface)
  {
    && !NamesOtherServer(req.siaddr, serverIP)
    && !NamesOtherServer(req.serverIdentifier, serverIP)
    && ClaimedAddress(req) == Some(nic.ip)
  }

  /** The reply an ACK is filled from: `ciaddr` echoed when set and non-zero, type DHCPACK. */
  function AckBase(req: Request, resp: Response): (b: Response)
    ensures b.yiaddr == resp.yiaddr
    ensures b.ciaddr == if IsSetNonZero(req.ciaddr) then req.ciaddr else resp.ciaddr
    ensures Sets(b, OptMessageType, MsgType(Ack))
    ensures forall c :: c != OptMessageType ==> Keeps(resp, b, c)
  {
    var echoed := if IsSetNonZero(req.ciaddr) then resp.(ciaddr := req.ciaddr) else resp;
    UpdateOption(echoed, OptMessageType, MsgType(Ack))
  }

  /** `staticAckHandler4`. A REQUEST that names another server is refused with an error and no
      reply; one that claims an address other than the registered one gets a DHCPNAK carrying
      only a message; otherwise a DHCPACK filled like an offer. The source never checks that an
      interface matches, so a match is required here. */
  method StaticAckHandler(s: Server, host: Host, serverIP: IPv4, req: Request, resp: Response, mint: Minter)
    returns (res: Result<Response, AckError>)
    requires Interface(host, req.chaddr).Some?
    requires Acknowledges(serverIP, req, Interface(host, req.chaddr).value) ==>
      FallbackReady(s, Interface(host, req.chaddr).value.ip)
    ensures res.Failure? <==> NamesOtherServer(req.siaddr, serverIP) || NamesOtherServer(req.serverIdentifier, serverIP)
    ensures NamesOtherServer(req.siaddr, serverIP) ==> res == Failure(ServerAddrMismatch(req.siaddr.value, serverIP))
    ensures !NamesOtherServer(req.siaddr, serverIP) && NamesOtherServer(req.serverIdentifier, serverIP) ==>
      res == Failure(ServerIdentifierMismatch(req.serverIdentifier.value, serverIP))
    ensures var nic := Interface(host, req.chaddr).value;
      res.Success? && ClaimedAddress(req) != Some(nic.ip) ==>
        && Sets(res.value, OptMessage, Text(NakMessage(ClaimedAddress(req), nic.ip)))
        && Sets(res.value, OptMessageType, MsgType(Nak))
        && OnlyTouches(resp, res.value, {OptMessage, OptMessageType})
    ensures var nic := Interface(host, req.chaddr).value;
      res.Success? && ClaimedAddress(req) == Some(nic.ip) ==>
        && Sets(res.value, OptMessageType, MsgType(Ack))
        && Filled(s, host, nic, serverIP, req, AckBase(req, resp), mint, res.value)
  {
    if NamesOtherServer(req.siaddr, serverIP) {
      return Failure(ServerAddrMismatch(req.siaddr.value, serverIP));
    }
    if NamesOtherServer(req.serverIdentifier, serverIP) {
      return Failure(ServerIdentifierMismatch(req.serverIdentifier.value, serverIP));
    }
    var claimed := ClaimedAddress(req);
    var nic := Interface(host, req.chaddr).value;
    if claimed != Some(nic.ip) {
      var nak := UpdateOption(resp, OptMessage, Text(NakMessage(claimed, nic.ip)));
      return Success(UpdateOption(nak, OptMessageType, MsgType(Nak)));
    }
    var base := AckBase(req, resp);
    var r := StaticHandler(s, host, serverIP, req, base, mint);
    assert Keeps(base, r, OptMessageType);
    return Success(r);
  }
}

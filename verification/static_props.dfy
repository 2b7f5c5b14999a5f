/** Properties that relate several calls of the static engine, or relate its outputs to
    independent readings of them, and the worked examples of an offer and a refusal. */
module StaticProps {
  import opened Wrappers
  import opened Net
  import opened Format
  import opened Dhcpv4
  import opened Model
  import opened Static

  // ---------------------------------------------------------------- router and netmask

  /** Any subnet that contains the address may win: the map's iteration order gives no subnet
      priority over another. */
  lemma AnyContainingSubnetMayWin(s: Server, ip: IPv4, base: Response, k: IPv4)
    requires k in s.subnets && Contains(s.subnets[k], ip)
    ensures RouterOptions(s, ip, base, SubnetRouter(k, s.subnets[k], base))
  {
  }

  /** When at most one subnet contains the address, the router and mask are determined. */
  lemma RouterChoiceDeterminedWithoutOverlap(s: Server, ip: IPv4, base: Response, r1: Response, r2: Response)
    requires forall k1, k2 ::
      (k1 in s.subnets && k2 in s.subnets && Contains(s.subnets[k1], ip) && Contains(s.subnets[k2], ip)) ==> k1 == k2
    requires RouterOptions(s, ip, base, r1) && RouterOptions(s, ip, base, r2)
    ensures OptionOf(r1, OptRouter) == OptionOf(r2, OptRouter)
    ensures OptionOf(r1, OptSubnetMask) == OptionOf(r2, OptSubnetMask)
  {
    if InSomeSubnet(s, ip) {
      var k1 :| k1 in s.subnets && Contains(s.subnets[k1], ip)
        && Sets(r1, OptRouter, IPs([k1]))
        && Sets(r1, OptSubnetMask, Mask(CIDRMask(FirstBits(s.subnets[k1]))));
      var k2 :| k2 in s.subnets && Contains(s.subnets[k2], ip)
        && Sets(r2, OptRouter, IPs([k2]))
        && Sets(r2, OptSubnetMask, Mask(CIDRMask(FirstBits(s.subnets[k2]))));
    } else {
      assert OptionOf(r1, OptRouter) == OptionOf(FallbackRouter(s, ip, base), OptRouter);
      assert OptionOf(r1, OptSubnetMask) == OptionOf(FallbackRouter(s, ip, base), OptSubnetMask);
    }
  }

  /** A matching subnet suppresses the fallback: the router advertised is a subnet's router,
      whose subnet holds the address. */
  lemma SubnetRouterServesAddress(s: Server, ip: IPv4, base: Response, r: Response)
    requires InSomeSubnet(s, ip) && RouterOptions(s, ip, base, r)
    ensures exists k :: k in s.subnets && Contains(s.subnets[k], ip) && OptionOf(r, OptRouter) == Some(IPs([k]))
  {
  }

  /** The fallback on a reply without router or mask: the mask appears exactly when a global
      netmask is configured; the router comes from the offset rule, else the global router,
      else is absent. */
  lemma FallbackCases(s: Server, ip: IPv4, base: Response, r: Response)
    requires !InSomeSubnet(s, ip) && RouterOptions(s, ip, base, r)
    requires OptionOf(base, OptRouter) == None && OptionOf(base, OptSubnetMask) == None
    ensures OptionOf(r, OptSubnetMask).Some? <==> s.netmask.Some?
    ensures s.netmask.Some? ==> OptionOf(r, OptSubnetMask) == Some(Mask(s.netmask.value))
    ensures s.routerOctet4 > 0 ==>
      OptionOf(r, OptRouter) == Some(IPs([OffsetRouter(ip, s.netmask.value, s.routerOctet4)]))
    ensures s.routerOctet4 <= 0 && s.routerIP.Some? ==> OptionOf(r, OptRouter) == Some(IPs([s.routerIP.value]))
    ensures s.routerOctet4 <= 0 && s.routerIP.None? ==> OptionOf(r, OptRouter) == None
  {
    assert OptionOf(r, OptRouter) == OptionOf(FallbackRouter(s, ip, base), OptRouter);
    assert OptionOf(r, OptSubnetMask) == OptionOf(FallbackRouter(s, ip, base), OptSubnetMask);
  }

  /** With a global netmask of at most 24 bits, the router the offset rule computes lies in
      the interface's own prefix: the offset only moves the last octet. */
  lemma OffsetRouterInInterfacePrefix(ip: IPv4, bits: PrefixLen, offset: int)
    requires bits <= 24
    ensures PrefixContains(Prefix(ip, bits), OffsetRouter(ip, CIDRMask(bits), offset))
  {
    var m := CIDRMask(bits);
    assert m[3] == 0 by {
      assert m[3] == OctetOnes(bits, 3);
    }
    RemaskKeepsNetwork(ip, m, OffsetRouter(ip, m, offset));
  }

  /** Masking again an address that agrees with a masked address on the octets the mask
      covers gives that masked address back. */
  lemma RemaskKeepsNetwork(ip: IPv4, m: IPv4, r: IPv4)
    requires m[3] == 0 && r[..3] == MaskAddr(ip, m)[..3]
    ensures MaskAddr(r, m) == MaskAddr(ip, m)
  {
    var x := MaskAddr(ip, m);
    forall k | 0 <= k < 4
      ensures MaskAddr(r, m)[k] == x[k]
    {
      if k < 3 {
        assert r[k] == r[..3][k] == x[..3][k] == ip[k] & m[k];
        assert (ip[k] & m[k]) & m[k] == ip[k] & m[k];
      } else {
        assert r[3] & 0 == 0 && ip[3] & 0 == 0;
      }
    }
  }

  /** Offsets that agree modulo 256 give the same router: the offset only reaches the reply
      through a byte. */
  lemma OffsetWrapsAt256(ip: IPv4, mask: IPv4, a: int, b: int)
    requires a % 256 == b % 256
    ensures OffsetRouter(ip, mask, a) == OffsetRouter(ip, mask, b)
  {
    assert LowByte(a) == LowByte(b);
  }

  /** With a netmask whose last octet is zero and an offset below 256, the router is the
      network address with the offset as its last octet (a network 10.1.2.0/24 and offset 1
      give 10.1.2.1). */
  lemma OffsetRouterOnNetwork(ip: IPv4, mask: IPv4, offset: int)
    requires mask[3] == 0 && 0 <= offset < 256
    ensures OffsetRouter(ip, mask, offset)[..3] == MaskAddr(ip, mask)[..3]
    ensures OffsetRouter(ip, mask, offset)[3] == offset as bv8
  {
    var m := MaskAddr(ip, mask);
    assert m[3] == ip[3] & mask[3];
    assert offset % 256 == offset;
  }

  // ---------------------------------------------------------------- vendor provisioning

  /** The boot endpoint's reading of a URL: the path segment after `<base>/boot/`, up to the
      next '/'. */
  function TokenSegment(url: string, base: string): Option<string>
  {
    var prefix := base + "/boot/";
    if |url| >= |prefix| && url[..|prefix|] == prefix then Some(UpToSlash(url[|prefix|..])) else None
  }

  function UpToSlash(s: string): (t: string)
    ensures '/' !in t
  {
    if |s| == 0 || s[0] == '/' then "" else [s[0]] + UpToSlash(s[1..])
  }

  lemma {:induction false} UpToSlashOfToken(t: string, rest: string)
    requires '/' !in t
    requires |rest| > 0 && rest[0] == '/'
    ensures UpToSlash(t + rest) == t
  {
    if |t| > 0 {
      assert (t + rest)[1..] == t[1..] + rest;
      UpToSlashOfToken(t[1..], rest);
    } else {
      assert t + rest == rest;
    }
  }

  /** A boot URL hands the endpoint back exactly the token it was built from. */
  lemma BootURLCarriesToken(s: Server, serverIP: IPv4, token: string, path: string)
    requires '/' !in token
    requires |path| > 0 && path[0] == '/'
    ensures TokenSegment(BootURL(s, serverIP, token, path), BaseURL(s, serverIP)) == Some(token)
  {
    var prefix := BaseURL(s, serverIP) + "/boot/";
    var url := BootURL(s, serverIP, token, path);
    assert url == prefix + (token + path);
    assert url[..|prefix|] == prefix;
    assert url[|prefix|..] == token + path;
    UpToSlashOfToken(token, path);
  }

  /** The token a vendor option carries, as the boot endpoint reads it. */
  function CarriedToken(r: Response, code: OptionCode, base: string): Option<string>
  {
    match OptionOf(r, code)
    case Some(Text(url)) => TokenSegment(url, base)
    case _ => None
  }

  /** The BMP flow's two options carry the same token, the first mint for this host and the
      answering interface's hardware address; the ZTD option carries its own mint, the second
      of the exchange when both flows run. */
  lemma VendorTokens(s: Server, host: Host, nic: NetInterface, serverIP: IPv4, mint: Minter, base: Response, r: Response)
    requires VendorOptions(s, host, nic, serverIP, mint, base, r)
    requires forall n: nat :: '/' !in mint(host.id, MacString(nic.mac), n)
    ensures host.provision && HasTag(host, TagDellBMP) ==>
      && CarriedToken(r, OptBootfileName, BaseURL(s, serverIP)) == Some(mint(host.id, MacString(nic.mac), 0))
      && CarriedToken(r, OptPXELinuxConfigFile, BaseURL(s, serverIP)) == Some(mint(host.id, MacString(nic.mac), 0))
    ensures host.provision && HasTag(host, TagDellZTD) ==>
      CarriedToken(r, OptDellZTDProvisionURL, BaseURL(s, serverIP))
        == Some(mint(host.id, MacString(nic.mac), if HasTag(host, TagDellBMP) then 1 else 0))
  {
    var mac := MacString(nic.mac);
    if host.provision && HasTag(host, TagDellBMP) {
      BootURLCarriesToken(s, serverIP, mint(host.id, mac, 0), KernelPath);
      BootURLCarriesToken(s, serverIP, mint(host.id, mac, 0), KickstartPath);
    }
    if host.provision && HasTag(host, TagDellZTD) {
      BootURLCarriesToken(s, serverIP, mint(host.id, mac, if HasTag(host, TagDellBMP) then 1 else 0), KickstartPath);
    }
  }

  /** A host not flagged for provisioning gets no vendor option, whatever its tags. */
  lemma NoProvisionNoVendorOptions(s: Server, host: Host, nic: NetInterface, serverIP: IPv4, mint: Minter,
                                   base: Response, r: Response)
    requires !host.provision
    requires VendorOptions(s, host, nic, serverIP, mint, base, r)
    requires OptionOf(base, OptBootfileName) == None && OptionOf(base, OptPXELinuxConfigFile) == None
    requires OptionOf(base, OptDellZTDProvisionURL) == None
    ensures OptionOf(r, OptBootfileName) == None && OptionOf(r, OptPXELinuxConfigFile) == None
    ensures OptionOf(r, OptDellZTDProvisionURL) == None
  {
  }

  /** A client that sends no parameter request list gets the MTU and, when name servers are
      configured, a name-server option; one that sends an empty list gets neither. */
  lemma RequestListGatesMtuAndDns(s: Server, host: Host, nic: NetInterface, serverIP: IPv4, req: Request,
                                  base: Response, mint: Minter, r: Response)
    requires Filled(s, host, nic, serverIP, req, base, mint, r)
    ensures req.parameterRequestList.None? ==> Sets(r, OptInterfaceMTU, Bytes(Uint16Bytes(ToUint16(s.mtu))))
    ensures req.parameterRequestList.None? && |s.dnsServers| > 0 ==> OptionOf(r, OptDomainNameServer).Some?
    ensures req.parameterRequestList == Some([]) ==>
      Keeps(base, r, OptInterfaceMTU) && Keeps(base, r, OptDomainNameServer)
  {
  }

  // ---------------------------------------------------------------- REQUEST validation

  /** The DHCPNAK message determines both addresses it names. */
  lemma NakMessageNamesBoth(a: Option<IPv4>, b: IPv4, a': Option<IPv4>, b': IPv4)
    requires NakMessage(a, b) == NakMessage(a', b')
    ensures a == a' && b == b'
  {
    NoSpaceInShownAddress(a);
    NoSpaceInShownAddress(a');
    FramedInjective(NakLead, ShowIP(a), IPString(b), ShowIP(a'), IPString(b'), ' ', NakRest);
    ShowIPInjective(a, a');
    IPStringInjective(b, b');
  }

  /** `p x <sep>q y` with no `sep` in `x`: equal strings of this shape have equal `x` and `y`. */
  lemma FramedInjective(p: string, x: string, y: string, x': string, y': string, sep: char, q: string)
    requires sep !in x && sep !in x'
    requires p + x + [sep] + q + y == p + x' + [sep] + q + y'
    ensures x == x' && y == y'
  {
    var whole := p + x + [sep] + q + y;
    var whole' := p + x' + [sep] + q + y';
    assert whole[|p|..] == x + [sep] + (q + y);
    assert whole'[|p|..] == x' + [sep] + (q + y');
    SplitAtSeparator(x, q + y, x', q + y', sep);
    assert y == (q + y)[|q|..] == (q + y')[|q|..] == y';
  }

  lemma NoSpaceInShownAddress(a: Option<IPv4>)
    ensures ' ' !in ShowIP(a)
  {
    if a.Some? {
      var s := IPString(a.value);
      assert forall i :: 0 <= i < |s| ==> s[i] != ' ';
    }
  }

  // ---------------------------------------------------------------- worked examples

  /** An offer for host aa:bb:cc:dd:ee:ff registered at 10.0.0.5, tagged for ZTD, with one
      subnet 10.0.0.0/24 served by router 10.0.0.1. */
  lemma OfferExample(serverIP: IPv4, req: Request, resp: Response, mint: Minter, r: Response)
    requires Filled(ExampleServer(), ExampleHost(), ExampleNic(), serverIP, req, resp, mint, r)
    ensures r.yiaddr == Some([10, 0, 0, 5])
    ensures OptionOf(r, OptRouter) == Some(IPs([[10, 0, 0, 1]]))
    ensures OptionOf(r, OptSubnetMask) == Some(Mask([255, 255, 255, 0]))
    ensures OptionOf(r, OptHostName) == Some(Text("node5.cluster"))
    ensures OptionOf(r, OptDellZTDProvisionURL)
      == Some(Text(BootURL(ExampleServer(), serverIP, mint("node5", "aa:bb:cc:dd:ee:ff", 0), "/kickstart")))
  {
    var s := ExampleServer();
    ExampleRouterChoice(resp, r);
    ExampleMac();
  }

  lemma ExampleRouterChoice(base: Response, r: Response)
    requires RouterOptions(ExampleServer(), [10, 0, 0, 5], base, r)
    ensures OptionOf(r, OptRouter) == Some(IPs([[10, 0, 0, 1]]))
    ensures OptionOf(r, OptSubnetMask) == Some(Mask([255, 255, 255, 0]))
  {
    var s := ExampleServer();
    var router: IPv4 := [10, 0, 0, 1];
    assert s.subnets.Keys == {router};
    ExampleMask();
    assert PrefixContains(Prefix([10, 0, 0, 0], 24), [10, 0, 0, 5]);
    assert s.subnets[router].prefixes[0] == Prefix([10, 0, 0, 0], 24);
    assert Contains(s.subnets[router], [10, 0, 0, 5]);
  }

  lemma ExampleMask()
    ensures CIDRMask(24) == [255, 255, 255, 0]
  {
    var m := CIDRMask(24);
    assert m[0] == OctetOnes(24, 0) && m[1] == OctetOnes(24, 1);
    assert m[2] == OctetOnes(24, 2) && m[3] == OctetOnes(24, 3);
  }

  lemma ExampleMac()
    ensures MacString(ExampleNic().mac) == "aa:bb:cc:dd:ee:ff"
  {
    assert HexPair(0xaa) == "aa" && HexPair(0xbb) == "bb" && HexPair(0xcc) == "cc";
    assert HexPair(0xdd) == "dd" && HexPair(0xee) == "ee" && HexPair(0xff) == "ff";
  }

  function ExampleServer(): Server
  {
    Server(
      map[[10, 0, 0, 1] := IPSet([Prefix([10, 0, 0, 0], 24)])],
      None, 0, None, 86400 * 1000000000, [], 1500, [], "https", 6667)
  }

  function ExampleNic(): NetInterface
  {
    NetInterface([0xaa, 0xbb, 0xcc, 0xdd, 0xee, 0xff], [10, 0, 0, 5], "node5.cluster")
  }

  function ExampleHost(): Host
  {
    Host("node5", "node5", [ExampleNic()], true, {TagDellZTD}, "default")
  }

  /** A REQUEST from the same host claiming 10.0.0.9 is refused with this message. */
  lemma NakExample()
    ensures NakMessage(Some([10, 0, 0, 9]), [10, 0, 0, 5])
      == "Requested IP address " + "10.0.0.9" + " " + "does not match address configured in Grendel: " + "10.0.0.5"
  {
    assert DecimalString(10) == "10" by {
      assert DecimalString(1) == "1";
    }
    assert DecimalString(0) == "0" && DecimalString(9) == "9" && DecimalString(5) == "5";
    assert IPString([10, 0, 0, 9]) == "10.0.0.9";
    assert IPString([10, 0, 0, 5]) == "10.0.0.5";
  }
}

/** The parts of a DHCPv4 message the static handlers read and write: option codes from
    RFC 2132 (and the site-specific and PXELINUX codes the vendor flows use), the decoded
    request fields, and a response as header addresses plus a map from option code to value.
    Wire encoding of option values is not modelled; values are kept typed. */
module Dhcpv4 {
  import opened Wrappers
  import opened Net

  type OptionCode = c: int | 0 <= c < 256

  const OptSubnetMask: OptionCode := 1           // RFC 2132 section 3.3
  const OptRouter: OptionCode := 3               // RFC 2132 section 3.5
  const OptDomainNameServer: OptionCode := 6     // RFC 2132 section 3.8
  const OptHostName: OptionCode := 12            // RFC 2132 section 3.14
  const OptInterfaceMTU: OptionCode := 26        // RFC 2132 section 5.1
  const OptRequestedIPAddress: OptionCode := 50  // RFC 2132 section 9.1
  const OptIPAddressLeaseTime: OptionCode := 51  // RFC 2132 section 9.2
  const OptMessageType: OptionCode := 53         // RFC 2132 section 9.6
  const OptServerIdentifier: OptionCode := 54    // RFC 2132 section 9.7
  const OptMessage: OptionCode := 56             // RFC 2132 section 9.9
  const OptBootfileName: OptionCode := 67        // RFC 2132 section 9.5
  const OptDomainSearch: OptionCode := 119       // RFC 3397
  const OptPXELinuxConfigFile: OptionCode := 209 // RFC 5071
  const OptDellZTDProvisionURL: OptionCode := 240 // site-specific (RFC 2132 section 2)

  /** DHCP message types, RFC 2132 section 9.6. */
  datatype MessageType = Discover | Offer | Request | Decline | Ack | Nak | Release | Inform

  datatype OptionValue =
    | IPs(addrs: seq<IPv4>)       // routers, domain name servers
    | Mask(mask: IPv4)            // subnet mask
    | Duration(nanos: int)        // lease time, a Go time.Duration
    | Bytes(data: seq<Byte>)      // a generic option carrying raw bytes
    | Text(text: string)          // host name, boot file name, message, vendor URLs
    | Labels(names: seq<string>)  // domain search list, label-encoded on the wire
    | MsgType(kind: MessageType)

  /** A decoded request. `None` stands for a nil `net.IP`, or for an option that is absent. */
  datatype Request = Request(
    chaddr: seq<Byte>,                  // ClientHWAddr
    ciaddr: Option<IPv4>,               // ClientIPAddr
    siaddr: Option<IPv4>,               // ServerIPAddr
    requestedIP: Option<IPv4>,          // option 50
    serverIdentifier: Option<IPv4>,     // option 54
    parameterRequestList: Option<seq<OptionCode>>) // option 55; None when the client sent none

  /** The reply being built. */
  datatype Response = Response(
    yiaddr: Option<IPv4>,               // YourIPAddr
    ciaddr: Option<IPv4>,               // ClientIPAddr
    options: map<OptionCode, OptionValue>)

  /** `DHCPv4.IsOptionRequested` of the DHCP library the handlers use: a client that sent no
      parameter request list is taken to want every option (the library's reading of
      section 3.5 of RFC 2131); otherwise the code must appear in the list. */
  predicate IsOptionRequested(req: Request, code: OptionCode)
    ensures req.parameterRequestList.None? ==> IsOptionRequested(req, code)
    ensures req.parameterRequestList == Some([]) ==> !IsOptionRequested(req, code)
  {
    req.parameterRequestList.None? || code in req.parameterRequestList.value
  }

  /** A nil-able address that is present and not 0.0.0.0. */
  predicate IsSetNonZero(a: Option<IPv4>)
  {
    a.Some? && a.value != Unspecified
  }

  function OptionOf(r: Response, code: OptionCode): Option<OptionValue>
  {
    if code in r.options then Some(r.options[code]) else None
  }

  /** `DHCPv4.UpdateOption`: replaces (or adds) one option and leaves everything else. */
  function UpdateOption(r: Response, code: OptionCode, v: OptionValue): (r': Response)
    ensures OptionOf(r', code) == Some(v)
    ensures forall c :: c != code ==> OptionOf(r', c) == OptionOf(r, c)
    ensures r'.yiaddr == r.yiaddr && r'.ciaddr == r.ciaddr
  {
    r.(options := r.options[code := v])
  }

  /** The response carries option `code` with value `v`. */
  ghost predicate Sets(r: Response, code: OptionCode, v: OptionValue)
  {
    OptionOf(r, code) == Some(v)
  }

  /** Option `code` is the same (present with the same value, or absent) in both. */
  ghost predicate Keeps(before: Response, after: Response, code: OptionCode)
  {
    OptionOf(after, code) == OptionOf(before, code)
  }

  /** Only the options in `codes` may differ, and the header addresses are unchanged. */
  ghost predicate OnlyTouches(before: Response, after: Response, codes: set<OptionCode>)
  {
    && after.yiaddr == before.yiaddr
    && after.ciaddr == before.ciaddr
    && forall c :: c !in codes ==> Keeps(before, after, c)
  }

  /** Go's conversion of an `int` to `uint16`: the low 16 bits, i.e. the value modulo 65536. */
  function ToUint16(v: int): (r: bv16)
    ensures 0 <= v < 65536 ==> r == v as bv16
  {
    (v % 65536) as bv16
  }

  /** Values that agree modulo 65536 convert to the same `uint16`; with the in-range clause of
      `ToUint16` this fixes the conversion of every value, e.g. an MTU of 65536 + 1500 is sent
      as 1500. */
  lemma ToUint16Congruent(v: int, w: int)
    requires v % 65536 == w % 65536
    ensures ToUint16(v) == ToUint16(w)
  {
  }

  lemma ToUint16Example()
    ensures ToUint16(65536 + 1500) == 1500
  {
    ToUint16Congruent(65536 + 1500, 1500);
  }

  /** `dhcpv4.Uint16(x).ToBytes()`: big-endian, high byte first. */
  function Uint16Bytes(x: bv16): (b: seq<Byte>)
    ensures |b| == 2
    ensures DecodeUint16(b) == x
  {
    [(x >> 8) as bv8, (x & 0xff) as bv8]
  }

  /** Reads two big-endian bytes back as a 16-bit number. */
  function DecodeUint16(b: seq<Byte>): bv16
    requires |b| == 2
  {
    ((b[0] as bv16) << 8) | (b[1] as bv16)
  }
}

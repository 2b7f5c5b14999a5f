# Grendel static DHCPv4 engine in Dafny

Grendel provisions bare-metal clusters. Its DHCP server answers hosts it already knows:
once a DISCOVER or REQUEST has been matched to a host record by hardware address, the
static engine (`dhcp/static.go`) decides what goes into the reply. This project models
that engine as pure functions over immutable data and proves what each step puts into the
reply, what it leaves alone, and how its choices relate to the configuration.

The engine has four parts, each modelled in module `Static`:

- **Router and netmask** (`setRouter`, modelled by `SetRouter`). A subnet whose address set
  contains the interface address supplies the router (option 3) and the mask of its first
  prefix (option 1). Without one, a global netmask, a router offset or a global router is
  used.
- **Vendor provisioning** (`setZTD`, modelled by `SetZTD`). Hosts flagged for provisioning
  and tagged `dellbmp` get a Dell BMP boot file name (option 67) and a PXELINUX config file
  (option 209) built from one boot token. Hosts tagged `dellztd` get a Dell ZTD provision
  URL (option 240) built from a token of their own.
- **Offer fill** (`staticHandler4`, modelled by `StaticHandler`). It sets `yiaddr` and then
  adds router, vendor, lease time, DNS servers, interface MTU, host name and domain search.
- **REQUEST validation** (`staticAckHandler4`, modelled by `StaticAckHandler`). It refuses a
  REQUEST whose `siaddr` or option 54 names a server other than this one. It then compares the
  claimed address (option 50, else `ciaddr`) with the registered one. A mismatch yields a
  DHCPNAK with a message; a match yields a DHCPACK filled like an offer. This follows
  section 4.3.2 of RFC 2131.

Supporting modules:

- `Net`: IPv4 addresses as 4-byte sequences, masks and prefix sets, with bit-level
  specifications.
- `Format`: the text renderings the engine prints (decimal numbers, dotted quads, MAC
  addresses), with injectivity proofs.
- `Dhcpv4`: option codes, requests and replies as option maps.
- `Model`: hosts and network interfaces.
- `Shuffle`: `rand.Shuffle` as Fisher–Yates over arbitrary draws.

How the model reads the code:

- **Subnet order.** The subnets live in a Go map, so the order of `range` is unspecified.
  `RouterOptions` therefore allows *any* containing subnet to win, not the first one
  configured. `AnyContainingSubnetMayWin` shows every such choice is possible.
  `RouterChoiceDeterminedWithoutOverlap` shows the choice is unique when subnets do not
  overlap.
- **Claimed address.** The requested-IP option (50) is preferred when set and non-zero.
  `ciaddr` is only the fallback.
- **Ack precondition.** `staticAckHandler4` dereferences the interface it looks up without
  checking for none. `StaticAckHandler` therefore requires that an interface matches.
- **Router offset.** `byte(offset)`, the offset modulo 256, is *added* to the masked last
  octet in 8-bit arithmetic. It does not replace that octet.
- **Fallback precondition.** The offset rule indexes the masked address, which does not
  exist without a global netmask. The fallback therefore requires a netmask whenever the
  offset is positive and no subnet matches (`FallbackReady`).
- **Token errors.** Errors from token minting are discarded, so a URL may carry whatever
  the minter returned. A minter is an arbitrary function of host id, rendered MAC and mint
  ordinal. The ordinal is 0 for the first mint of one exchange and 1 for the second; it
  stands for what makes two mints differ (issue time, randomness).
- **Requested options.** The DNS and MTU options depend on `IsOptionRequested` of the DHCP
  library. A client that sent no parameter request list (option 55) is taken to want every
  option, so it gets both. A client that sent an empty list gets neither.
- **Mask source.** The mask always comes from the set's first prefix, even when another
  prefix of the set is the one that holds the address.

## Model

| member | source | states |
|---|---|---|
| Static.SetRouter | dhcp/static.go:33-65 | The router and mask come from some subnet that contains the interface address, or from the global fallback when none does; no other option or header field changes |
| Static.SubnetRouter | dhcp/static.go:37-44 | A matching subnet advertises exactly its router address and the CIDR mask of the subnet's first prefix, and touches nothing else |
| Static.FallbackRouter | dhcp/static.go:48-64 | Without a matching subnet: the mask is set iff a global netmask exists; the router is the offset router when the offset is positive, else the global router, else is left as it was |
| Static.OffsetRouter | dhcp/static.go:54-55 | The offset router keeps the first three octets of the masked address; its last octet exceeds the masked one by `byte(offset)` in 8-bit arithmetic |
| StaticProps.OffsetWrapsAt256 | dhcp/static.go:55 | Offsets that agree modulo 256 give the same router |
| StaticProps.OffsetRouterOnNetwork | dhcp/static.go:53-55 | With a mask whose last octet is zero and an offset below 256, the router is the network address with the offset as its last octet |
| StaticProps.AnyContainingSubnetMayWin | dhcp/static.go:36-45 | Whichever containing subnet the map iteration reaches first, its router and mask form an admissible reply |
| StaticProps.RouterChoiceDeterminedWithoutOverlap | dhcp/static.go:36-45 | When at most one subnet contains the address, any two admissible replies agree on router and mask |
| StaticProps.SubnetRouterServesAddress | dhcp/static.go:36-45 | When some subnet contains the address, the advertised router is the router of a subnet that contains it |
| StaticProps.FallbackCases | dhcp/static.go:48-64 | On a reply without router or mask, the fallback sets the mask iff a netmask is configured; the router is the offset router, else the global router, else absent |
| StaticProps.OffsetRouterInInterfacePrefix | dhcp/static.go:53-55 | With a netmask of at most 24 bits, the offset router lies in the interface's own prefix |
| Static.SetZTD | dhcp/static.go:67-106 | An unprovisioned host's reply is unchanged. BMP sets options 67 and 209 from one token. ZTD sets option 240 from its own mint. Nothing else changes |
| StaticProps.BootURLCarriesToken | dhcp/static.go:83-87 | For a token without `/`, a boot URL's path segment after `/boot/` is exactly the token it was built from |
| StaticProps.VendorTokens | dhcp/static.go:82-104 | For a minter whose tokens hold no `/`, options 67 and 209 carry the same first-mint token; option 240 carries its own mint, the second one when both flows run |
| StaticProps.NoProvisionNoVendorOptions | dhcp/static.go:68-71 | A host not flagged for provisioning gets none of options 67, 209 and 240, whatever its tags |
| Static.LaterOptions | dhcp/static.go:127-152 | Lease time is always set. DNS is set only when requested and configured. MTU is set iff requested. Host name is set iff the FQDN is non-empty. Domain search is set iff the list is non-empty. Nothing else changes |
| Static.StaticHandler | dhcp/static.go:108-155 | An unknown hardware address leaves the reply unchanged. A known one gets its registered address as yiaddr and every option of the fill path, with DNS servers reordered when there are several |
| Static.AckBase | dhcp/static.go:186-190 | `ciaddr` is echoed when set and non-zero, the message type becomes ACK, and every other option is kept |
| Static.StaticAckHandler | dhcp/static.go:157-192 | An error occurs iff `siaddr` or option 54 names another server, with the first check taking priority. A wrong claimed address gets exactly a NAK message and type. A correct one gets ACK and the full fill |
| StaticProps.NakMessageNamesBoth | dhcp/static.go:179 | The NAK message text determines both the claimed and the registered address |
| StaticProps.OfferExample | dhcp/static.go:108-152 | Worked offer for a ZTD host in 10.0.0.0/24: address, router, mask, host name and provision URL |
| StaticProps.NakExample | dhcp/static.go:179 | Worked NAK message for a client claiming 10.0.0.9 while registered at 10.0.0.5 |
| Shuffle.Shuffle | dhcp/static.go:134-137 | The reordered DNS list has the same servers with the same multiplicities, and is a Fisher–Yates outcome of some valid draws |
| Shuffle.EveryPermutationIsReachable | dhcp/static.go:136 | Every reordering with the same multiset is the outcome of some sequence of Fisher–Yates draws |
| Shuffle.RoundsPermute | dhcp/static.go:136 | The Fisher–Yates rounds only swap, so the outcome holds the same elements with the same multiplicities |
| Model.Interface | dhcp/static.go:109-113 | The interface found has the requested hardware address and belongs to the host; none is found iff no interface has that address |
| Model.InterfaceIsUnique | dhcp/static.go:109 | With distinct MACs per host, the interface found for a MAC is the one interface with that MAC |
| Dhcpv4.UpdateOption | dhcp/static.go:40 | Setting an option changes that option only and leaves the header fields alone |
| Dhcpv4.Uint16Bytes | dhcp/static.go:141 | A 16-bit value is sent as two big-endian bytes that decode back to it |
| Net.MaskAddr | dhcp/static.go:54 | Masking keeps exactly the address bits the mask has set |
| Net.CIDRMask | dhcp/static.go:43 | The first `bits` bits of the mask are set and the rest are clear |
| Net.PrefixContainsBits | dhcp/static.go:37 | A prefix contains an address iff they agree on the first `bits` bits |
| Static.ClaimedAddress | dhcp/static.go:170-173 | The claimed address is option 50 when that is set and non-zero, else `ciaddr`; it is non-zero iff one of the two is |
| Static.NamesOtherServer | dhcp/static.go:158-168 | An absent field, 0.0.0.0 or this server's address never rejects a REQUEST; any other address does |
| Static.NakMessage | dhcp/static.go:179 | The NAK text starts with the fixed lead and ends with the registered address in dotted-quad form |
| Static.BaseURL | dhcp/static.go:83 | The base URL is the scheme, then `://`, then an authority that holds no `/` |
| Static.BootURL | dhcp/static.go:83-87 | The first `/` after the scheme opens the `/boot/` segment, which is followed by exactly the token and the path |
| Dhcpv4.IsOptionRequested | dhcp/static.go:129-140 | A client without a parameter request list is taken to ask for every option; one with an empty list asks for none |
| StaticProps.RequestListGatesMtuAndDns | dhcp/static.go:129-142 | Without a parameter request list the reply carries the MTU and, when servers are configured, a name-server option; with an empty list it carries neither change |
| Dhcpv4.ToUint16 | dhcp/static.go:141 | An MTU in the 16-bit range is sent unchanged |
| Dhcpv4.ToUint16Congruent | dhcp/static.go:141 | MTUs that agree modulo 65536 are sent as the same 16-bit value, so any MTU is sent as its residue |
| Dhcpv4.ToUint16Example | dhcp/static.go:141 | An MTU of 65536 + 1500 is sent as 1500 |
| Shuffle.FisherYates | dhcp/static.go:136 | The shuffled list has the length of the input, and fewer than two draws leave it as it was |
| Shuffle.Rounds | dhcp/static.go:136 | Every round of the shuffle keeps the list's length |
| Net.PrefixContains | dhcp/static.go:37 | A prefix contains its own address |
| Net.Contains | dhcp/static.go:37 | A set that contains an address has a first prefix, and a set contains the address of each of its prefixes |
| Format.IPString | dhcp/static.go:179 | A dotted quad starts with a digit and holds only digits and dots |
| Format.ShowIP | dhcp/static.go:179 | A present address renders starting with a digit and the nil one does not; neither rendering holds a space |
| Format.IntString | dhcp/static.go:83 | The decimal rendering of an integer is non-empty, starts with `-` iff the integer is negative, and holds only digits and `-` |
| Format.IntStringInjective | dhcp/static.go:83 | Distinct ports render to distinct strings |
| Format.MacString | dhcp/static.go:82 | A hardware address of n bytes renders as 3n-1 characters, and the empty one as the empty string |
| Format.ParseDecimalString | dhcp/static.go:83 | Parsing the decimal rendering of a number gives the number back |
| Format.DecimalStringInjective | dhcp/static.go:83 | Distinct numbers render to distinct decimal strings |
| Format.IPStringInjective | dhcp/static.go:179 | Distinct addresses render to distinct dotted quads |
| Format.ShowIPInjective | dhcp/static.go:179 | Distinct optional addresses, including the nil one, render distinctly |
| Format.MacStringInjective | dhcp/static.go:82 | Distinct hardware addresses render to distinct colon-separated hex strings |

## Left out

- Logging (`log.*`): it has no effect on the reply.
- `rand.Seed`: the shuffle is modelled by arbitrary draws, not a specific generator.
- Token cryptography: `model.NewBootToken` is a parameter of type `Minter`. model/host.go is
  not part of this model.
- `host.Interface` and `host.HasTags` are defined by contract. `Interface` returns the first
  interface whose MAC matches. `HasTags` is modelled for the single tag the engine passes,
  as set membership.
- The host registry and its key-value store (model/kvstore_test.go): the engine receives a
  host that was already looked up.
- main.go: process start-up, configuration loading and secret generation.
- The wire encoding of options (insomniacslk/dhcp, rfc1035label). Replies are option maps,
  and the lease time is the configured `time.Duration` in nanoseconds, not its encoded
  seconds.
- IPv6 and the 16-byte/4-byte `net.IP` representations. Addresses are 4-byte values, as
  after `Unmap`.
- netipx `IPSet` internals. A set is a list of prefixes; its normalisation into sorted
  minimal prefixes is not modelled, and `Prefixes()[0]` is the list's first prefix.
- The error strings of the two server mismatches. They are modelled as `AckError` values
  carrying the same two addresses.
- Static.StaticAckHandler: does not model the nil dereference when no interface matches.
  It requires a match instead.
- Static.SetRouter: does not model the panic of the offset rule without a global netmask.
  It requires one (`FallbackReady`) instead.
- Static.StaticHandler: does not model the same panic on the offer path. It requires
  `FallbackReady` through `MatchReady`.
- Static.StaticAckHandler: does not model the same panic on the ACK path. It requires
  `FallbackReady` whenever the REQUEST is acknowledged.
- Dhcpv4.IsOptionRequested: the DHCP library's own code is not part of this model. The
  model follows its reading of option 55: no list means every option is wanted.
- StaticProps.VendorTokens and StaticProps.BootURLCarriesToken: the token read back from a
  URL is promised only for tokens without `/`. A token holding `/` would run into the path
  that follows it, so the segment reader cannot tell where it ends.
- Dhcpv4.ToUint16: its own contract covers only the 16-bit range. Reduction modulo 65536 is
  stated by `ToUint16Congruent`: an equation between the 16-bit result read as an integer
  and `v % 65536` is beyond what the solver proves within its limits.

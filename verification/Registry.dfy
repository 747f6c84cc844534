/** The shipped table: every row, and what longest-prefix decoding makes of them. */
module Registry {
  import opened Wire
  import opened Networks
  import opened AddressTable

  /** The IANA IPv4 special-purpose registry. */
  const IANA_V4: seq<Block> := [
    Block(Network(Four, 0, 8), Denied), // 0.0.0.0/8 This network
    Block(Network(Four, 0, 32), Denied), // 0.0.0.0/32 This host on this network
    Block(Network(Four, 0x0A00_0000, 8), Denied), // 10.0.0.0/8 Private-Use
    Block(Network(Four, 0x6440_0000, 10), Denied), // 100.64.0.0/10 Shared Address Space
    Block(Network(Four, 0x7F00_0000, 8), Denied), // 127.0.0.0/8 Loopback
    Block(Network(Four, 0xA9FE_0000, 16), Denied), // 169.254.0.0/16 Link Local
    Block(Network(Four, 0xAC10_0000, 12), Denied), // 172.16.0.0/12 Private-Use
    Block(Network(Four, 0xC000_0000, 24), Denied), // 192.0.0.0/24 IETF Protocol Assignments
    Block(Network(Four, 0xC000_0000, 29), Denied), // 192.0.0.0/29 IPv4 Service Continuity Prefix
    Block(Network(Four, 0xC000_0008, 32), Denied), // 192.0.0.8/32 IPv4 dummy address
    Block(Network(Four, 0xC000_0009, 32), Permitted), // 192.0.0.9/32 Port Control Protocol Anycast
    Block(Network(Four, 0xC000_000A, 32), Permitted), // 192.0.0.10/32 Traversal Using Relays around NAT Anycast
    Block(Network(Four, 0xC000_00AA, 32), Denied), // 192.0.0.170/32 NAT64/DNS64 Discovery
    Block(Network(Four, 0xC000_00AB, 32), Denied), // 192.0.0.171/32 NAT64/DNS64 Discovery
    Block(Network(Four, 0xC000_0200, 24), Denied), // 192.0.2.0/24 Documentation (TEST-NET-1)
    Block(Network(Four, 0xC01F_C400, 24), Permitted), // 192.31.196.0/24 AS112-v4
    Block(Network(Four, 0xC034_C100, 24), Permitted), // 192.52.193.0/24 AMT
    Block(Network(Four, 0xC058_6300, 24), Denied), // 192.88.99.0/24 Deprecated (6to4 Relay Anycast)
    Block(Network(Four, 0xC058_6302, 32), Denied), // 192.88.99.2/32 6a44-relay anycast address
    Block(Network(Four, 0xC0A8_0000, 16), Denied), // 192.168.0.0/16 Private-Use
    Block(Network(Four, 0xC0AF_3000, 24), Permitted), // 192.175.48.0/24 Direct Delegation AS112 Service
    Block(Network(Four, 0xC612_0000, 15), Denied), // 198.18.0.0/15 Benchmarking
    Block(Network(Four, 0xC633_6400, 24), Denied), // 198.51.100.0/24 Documentation (TEST-NET-2)
    Block(Network(Four, 0xCB00_7100, 24), Denied), // 203.0.113.0/24 Documentation (TEST-NET-3)
    Block(Network(Four, 0xF000_0000, 4), Denied), // 240.0.0.0/4 Reserved
    Block(Network(Four, 0xFFFF_FFFF, 32), Denied) // 255.255.255.255/32 Limited Broadcast
  ]

  /** The IANA IPv6 special-purpose registry. */
  const IANA_V6: seq<Block> := [
    Block(Network(Six, 0x0001, 128), Denied), // ::1/128 Loopback Address
    Block(Network(Six, 0, 128), Denied), // ::/128 Unspecified Address
    Block(Network(Six, 0xFFFF_0000_0000, 96), Translated), // ::ffff:0:0/96 IPv4-mapped Address
    // 64:ff9b::/96 IPv4-IPv6 Translation
    Block(Network(Six, 0x0064_FF9B_0000_0000_0000_0000_0000_0000, 96), Translated),
    Block(Network(Six, 0x0064_FF9B_0001_0000_0000_0000_0000_0000, 48), Denied), // 64:ff9b:1::/48 IPv4-IPv6 Translation
    Block(Network(Six, 0x0100_0000_0000_0000_0000_0000_0000_0000, 64), Denied), // 100::/64 Discard-Only Address Block
    Block(Network(Six, 0x0100_0000_0000_0001_0000_0000_0000_0000, 64), Denied), // 100:0:0:1::/64 Dummy IPv6 Prefix
    Block(Network(Six, 0x2001_0000_0000_0000_0000_0000_0000_0000, 23), Denied), // 2001::/23 IETF Protocol Assignments
    Block(Network(Six, 0x2001_0000_0000_0000_0000_0000_0000_0000, 32), Translated), // 2001::/32 TEREDO
    // 2001:1::1/128 Port Control Protocol Anycast
    Block(Network(Six, 0x2001_0001_0000_0000_0000_0000_0000_0001, 128), Permitted),
    // 2001:1::2/128 Traversal Using Relays around NAT Anycast
    Block(Network(Six, 0x2001_0001_0000_0000_0000_0000_0000_0002, 128), Permitted),
    // 2001:1::3/128 DNS-SD Service Registration Protocol Anycast
    Block(Network(Six, 0x2001_0001_0000_0000_0000_0000_0000_0003, 128), Permitted),
    Block(Network(Six, 0x2001_0002_0000_0000_0000_0000_0000_0000, 48), Denied), // 2001:2::/48 Benchmarking
    Block(Network(Six, 0x2001_0003_0000_0000_0000_0000_0000_0000, 32), Permitted), // 2001:3::/32 AMT
    Block(Network(Six, 0x2001_0004_0112_0000_0000_0000_0000_0000, 48), Permitted), // 2001:4:112::/48 AS112-v6
    // 2001:10::/28 Deprecated (previously ORCHID)
    Block(Network(Six, 0x2001_0010_0000_0000_0000_0000_0000_0000, 28), Denied),
    Block(Network(Six, 0x2001_0020_0000_0000_0000_0000_0000_0000, 28), Permitted), // 2001:20::/28 ORCHIDv2
    // 2001:30::/28 Drone Remote ID Protocol Entity Tags (DETs) Prefix
    Block(Network(Six, 0x2001_0030_0000_0000_0000_0000_0000_0000, 28), Permitted),
    Block(Network(Six, 0x2001_0DB8_0000_0000_0000_0000_0000_0000, 32), Denied), // 2001:db8::/32 Documentation
    Block(Network(Six, 0x2002_0000_0000_0000_0000_0000_0000_0000, 16), Translated), // 2002::/16 6to4
    // 2620:4f:8000::/48 Direct Delegation AS112 Service
    Block(Network(Six, 0x2620_004F_8000_0000_0000_0000_0000_0000, 48), Permitted),
    Block(Network(Six, 0x3FFF_0000_0000_0000_0000_0000_0000_0000, 20), Denied), // 3fff::/20 Documentation
    Block(Network(Six, 0x5F00_0000_0000_0000_0000_0000_0000_0000, 16), Denied), // 5f00::/16 Segment Routing (SRv6) SIDs
    Block(Network(Six, 0xFC00_0000_0000_0000_0000_0000_0000_0000, 7), Denied), // fc00::/7 Unique-Local
    Block(Network(Six, 0xFE80_0000_0000_0000_0000_0000_0000_0000, 10), Denied) // fe80::/10 Link-Local Unicast
  ]

  /** Blocks those registries do not carry. */
  const EXTRA: seq<Block> := [
    Block(Network(Six, 0, 96), Translated), // ::/96 IPv4-Compatible (deprecated)
    Block(Network(Four, 0xE000_0000, 4), Denied), // 224.0.0.0/4 Multicast
    Block(Network(Six, 0xFF00_0000_0000_0000_0000_0000_0000_0000, 8), Denied), // ff00::/8 Multicast
    Block(Network(Six, 0xFEC0_0000_0000_0000_0000_0000_0000_0000, 10), Denied) // fec0::/10 Site-Local (deprecated)
  ]

  /** Hosts inside blocks already denied above, listed again for the name they give a refusal. */
  const METADATA: seq<Block> := [
    Block(Network(Four, 0xA9FE_A9FE, 32), Denied), // 169.254.169.254/32 Cloud metadata (AWS, GCP, Azure IMDS)
    Block(Network(Four, 0xA9FE_AA02, 32), Denied), // 169.254.170.2/32 Cloud metadata (AWS ECS task)
    Block(Network(Four, 0x6464_64C8, 32), Denied), // 100.100.100.200/32 Cloud metadata (Alibaba Cloud)
    Block(Network(Four, 0xC000_00C0, 32), Denied), // 192.0.0.192/32 Cloud metadata (Oracle Cloud)
    // fd00:ec2::254/128 Cloud metadata (AWS IMDS over IPv6)
    Block(Network(Six, 0xFD00_0EC2_0000_0000_0000_0000_0000_0254, 128), Denied)
  ]

  const ESSENTIAL: seq<Block> := IANA_V4 + IANA_V6 + EXTRA
  const TABLE: seq<Block> := ESSENTIAL + METADATA

  // ---------- facts about single rows ----------

  lemma {:induction false} Pow2Sum(a: nat, b: nat)
    ensures Pow2(a + b) == Pow2(a) * Pow2(b)
  {
    if a > 0 {
      Pow2Sum(a - 1, b);
    }
  }

  lemma SmallPowers()
    ensures Pow2(0) == 0x1
    ensures Pow2(3) == 0x8
    ensures Pow2(4) == 0x10
    ensures Pow2(8) == 0x100
    ensures Pow2(9) == 0x200
    ensures Pow2(12) == 0x1000
    ensures Pow2(16) == 0x1_0000
    ensures Pow2(17) == 0x2_0000
    ensures Pow2(20) == 0x10_0000
    ensures Pow2(22) == 0x40_0000
    ensures Pow2(24) == 0x100_0000
    ensures Pow2(25) == 0x200_0000
    ensures Pow2(28) == 0x1000_0000
    ensures Pow2(32) == 0x1_0000_0000
  {
  }

  lemma LargePowers()
    ensures Pow2(64) == 0x1_0000_0000_0000_0000
    ensures Pow2(80) == 0x1_0000_0000_0000_0000_0000
    ensures Pow2(96) == 0x1_0000_0000_0000_0000_0000_0000
    ensures Pow2(100) == 0x10_0000_0000_0000_0000_0000_0000
    ensures Pow2(105) == 0x200_0000_0000_0000_0000_0000_0000
    ensures Pow2(108) == 0x1000_0000_0000_0000_0000_0000_0000
    ensures Pow2(112) == 0x1_0000_0000_0000_0000_0000_0000_0000
    ensures Pow2(118) == 0x40_0000_0000_0000_0000_0000_0000_0000
    ensures Pow2(120) == 0x100_0000_0000_0000_0000_0000_0000_0000
    ensures Pow2(121) == 0x200_0000_0000_0000_0000_0000_0000_0000
    ensures Pow2(128) == 0x1_0000_0000_0000_0000_0000_0000_0000_0000
  {
    SmallPowers();
    hide Pow2;
    Pow2Sum(32, 32);
    Pow2Sum(64, 16);
    Pow2Sum(64, 32);
    Pow2Sum(96, 4);
    Pow2Sum(96, 9);
    Pow2Sum(96, 12);
    Pow2Sum(96, 16);
    Pow2Sum(96, 22);
    Pow2Sum(96, 24);
    Pow2Sum(96, 25);
    Pow2Sum(96, 32);
  }

  const LINK_LOCAL := Network(Four, 0xA9FE_0000, 16)
  const SHARED := Network(Four, 0x6440_0000, 10)
  const PROTOCOL := Network(Four, 0xC000_0000, 24)
  const UNIQUE_LOCAL := Network(Six, 0xFC00_0000_0000_0000_0000_0000_0000_0000, 7)
  const TWO_96: nat := 0x1_0000_0000_0000_0000_0000_0000
  const TWO_112: nat := 0x1_0000_0000_0000_0000_0000_0000_0000
  const ORACLE_HOST: nat := 0xC000_00C0

  /** Any network of at least this prefix that starts in `lo..hi` is `n` itself. */
  predicate AloneIn(m: Network, n: Network, lo: nat, hi: nat) {
    m.version == n.version && n.prefixLen <= m.prefixLen && lo <= m.base < hi ==> m == n
  }

  /** No row lies inside a translation prefix, except the two hosts inside the compatible one. */
  predicate NoRowInsideWrapper(m: Network) {
    && AloneIn(m, MAPPED, MAPPED.base, MAPPED.base + TWO_32)
    && AloneIn(m, NAT64, NAT64.base, NAT64.base + TWO_32)
    && AloneIn(m, SIX_TO_FOUR, SIX_TO_FOUR.base, SIX_TO_FOUR.base + 0x1_0000_0000_0000_0000_0000_0000_0000)
    && AloneIn(m, TEREDO, TEREDO.base, TEREDO.base + TWO_96)
    && AloneIn(m, COMPATIBLE, 2, TWO_32)
    && (m.version == Six && m.base <= 1 && 96 <= m.prefixLen ==> m == COMPATIBLE || m.prefixLen == 128)
    && (m.version == Four && m.base <= 1 ==> m == Network(Four, 0, 8) || m == Network(Four, 0, 32))
  }

  /** Inside the blocks that cover the metadata hosts, no essential row reaches those hosts. */
  predicate NoRowOverMetadata(m: Network) {
    && AloneIn(m, LINK_LOCAL, LINK_LOCAL.base, LINK_LOCAL.base + 0x1_0000)
    && AloneIn(m, SHARED, SHARED.base, SHARED.base + 0x40_0000)
    && AloneIn(m, UNIQUE_LOCAL, UNIQUE_LOCAL.base, 0xFE00_0000_0000_0000_0000_0000_0000_0000)
    && (m.version == Four && 24 <= m.prefixLen && PROTOCOL.base <= m.base <= ORACLE_HOST && m != PROTOCOL ==>
          m.base + Size(m) <= ORACLE_HOST)
  }

  lemma RowV4(i: nat)
    requires i < |IANA_V4|
    ensures var m := IANA_V4[i].network;
            ValidNetwork(m) && m.version == Four && NoRowInsideWrapper(m) && NoRowOverMetadata(m)
  {
    SmallPowers();
    hide Pow2;
  }

  lemma RowV6(i: nat)
    requires i < |IANA_V6|
    ensures var m := IANA_V6[i].network;
            ValidNetwork(m) && m.version == Six && NoRowInsideWrapper(m) && NoRowOverMetadata(m)
  {
    SmallPowers();
    LargePowers();
    hide Pow2;
  }

  lemma RowExtra(i: nat)
    requires i < |EXTRA|
    ensures var m := EXTRA[i].network; ValidNetwork(m) && NoRowInsideWrapper(m) && NoRowOverMetadata(m)
  {
    SmallPowers();
    LargePowers();
    hide Pow2;
  }

  lemma RowMetadata(i: nat)
    requires i < |METADATA|
    ensures ValidNetwork(METADATA[i].network) && NoRowInsideWrapper(METADATA[i].network)
  {
    SmallPowers();
    LargePowers();
    hide Pow2;
  }

  // ---------- no two rows alike ----------

  predicate Before(n: Network, m: Network) {
    n.base < m.base || (n.base == m.base && n.prefixLen < m.prefixLen)
  }

  predicate AscendingFrom(bs: seq<Block>, lo: nat) {
    forall k :: lo <= k < |bs| - 1 ==> Before(bs[k].network, bs[k + 1].network)
  }

  lemma {:induction false} AscendingIsDistinct(bs: seq<Block>, lo: nat, i: nat, j: nat)
    requires AscendingFrom(bs, lo) && lo <= i < j < |bs|
    ensures Before(bs[i].network, bs[j].network)
    decreases j
  {
    if i < j - 1 {
      AscendingIsDistinct(bs, lo, i, j - 1);
    }
  }

  lemma NextV4(k: nat)
    requires k < |IANA_V4| - 1
    ensures Before(IANA_V4[k].network, IANA_V4[k + 1].network)
  {
  }

  lemma NextV6(k: nat)
    requires 1 <= k < |IANA_V6| - 1
    ensures Before(IANA_V6[k].network, IANA_V6[k + 1].network)
  {
  }

  lemma LoopbackOnce(j: nat)
    requires 1 <= j < |IANA_V6|
    ensures IANA_V6[0].network != IANA_V6[j].network
  {
  }

  lemma Distinct4(i: nat, j: nat)
    requires i < j < |IANA_V4|
    ensures IANA_V4[i].network != IANA_V4[j].network
  {
    forall k | 0 <= k < |IANA_V4| - 1
      ensures Before(IANA_V4[k].network, IANA_V4[k + 1].network)
    {
      NextV4(k);
    }
    AscendingIsDistinct(IANA_V4, 0, i, j);
  }

  lemma Distinct6(i: nat, j: nat)
    requires i < j < |IANA_V6|
    ensures IANA_V6[i].network != IANA_V6[j].network
  {
    if i == 0 {
      LoopbackOnce(j);
    } else {
      forall k | 1 <= k < |IANA_V6| - 1
        ensures Before(IANA_V6[k].network, IANA_V6[k + 1].network)
      {
        NextV6(k);
      }
      AscendingIsDistinct(IANA_V6, 1, i, j);
    }
  }

  /** The rows outside the two registries differ from row `i` of either. */
  lemma OthersDiffer4(i: nat, j: nat)
    requires i < |IANA_V4| && j < 9
    ensures IANA_V4[i].network != (EXTRA + METADATA)[j].network
  {
  }

  lemma OthersDiffer6(i: nat, j: nat)
    requires i < |IANA_V6| && j < 9
    ensures IANA_V6[i].network != (EXTRA + METADATA)[j].network
  {
  }

  lemma OthersDiffer(i: nat, j: nat)
    requires i < j < 9
    ensures (EXTRA + METADATA)[i].network != (EXTRA + METADATA)[j].network
  {
  }

  // ---------- the whole table ----------

  /** Every row of the table as a row of one of its four parts. */
  lemma RowOf(i: nat)
    requires i < |TABLE|
    ensures TABLE[i] == if i < 26 then IANA_V4[i] else if i < 51 then IANA_V6[i - 26] else (EXTRA + METADATA)[i - 51]
  {
  }

  lemma TableLength()
    ensures |TABLE| == 60
  {
  }

  lemma RowFacts(i: nat)
    requires i < |TABLE|
    ensures ValidNetwork(TABLE[i].network) && NoRowInsideWrapper(TABLE[i].network)
    ensures i < |ESSENTIAL| ==> NoRowOverMetadata(TABLE[i].network)
  {
    hide ValidNetwork, NoRowInsideWrapper, NoRowOverMetadata;
    RowOf(i);
    if i < 26 {
      RowV4(i);
    } else if i < 51 {
      RowV6(i - 26);
    } else if i < 55 {
      RowExtra(i - 51);
    } else {
      RowMetadata(i - 55);
    }
  }

  lemma RowsDiffer(i: nat, j: nat)
    requires i < j < |TABLE|
    ensures TABLE[i].network != TABLE[j].network
  {
    RowOf(i);
    RowOf(j);
    if j < 26 {
      Distinct4(i, j);
    } else if i < 26 && j < 51 {
      RowV4(i);
      RowV6(j - 26);
    } else if j < 51 {
      Distinct6(i - 26, j - 26);
    } else if i < 26 {
      OthersDiffer4(i, j - 51);
    } else if i < 51 {
      OthersDiffer6(i - 26, j - 51);
    } else {
      OthersDiffer(i - 51, j - 51);
    }
  }

  /** The shipped table is one the constructor accepts, with or without its metadata rows. */
  lemma TableIsValid()
    ensures ValidBlocks(TABLE) && ValidBlocks(ESSENTIAL)
    ensures |TABLE| == 60
  {
    hide ValidNetwork, NoRowInsideWrapper, NoRowOverMetadata, IANA_V4, IANA_V6, EXTRA, METADATA;
    TableLength();
    forall i | 0 <= i < |TABLE|
      ensures ValidNetwork(TABLE[i].network)
    {
      RowFacts(i);
    }
    forall i, j | 0 <= i < j < |TABLE|
      ensures TABLE[i].network != TABLE[j].network
    {
      RowsDiffer(i, j);
    }
    EssentialRows();
  }

  lemma EssentialRows()
    ensures |ESSENTIAL| == 55 && forall i :: 0 <= i < 55 ==> ESSENTIAL[i] == TABLE[i]
  {
  }

  // ---------- translation, decoded ----------

  const SHIPPED: Table := TableOf(TABLE)

  /** The IPv6 forms of an IPv4 address, and a Teredo address made of a server, flags and port, and client. */
  function MappedForm(v: nat): (a: Address) { V6(MAPPED.base + v) }
  function Nat64Form(v: nat): (a: Address) { V6(NAT64.base + v) }
  function CompatibleForm(v: nat): (a: Address) { V6(v) }
  function SixToFourForm(v: nat, low: nat): (a: Address) { V6(SIX_TO_FOUR.base + v * TWO_80 + low) }
  function TeredoForm(server: nat, middle: nat, client: nat): (a: Address)
    requires client < TWO_32
  {
    V6(TEREDO.base + server * TWO_64 + middle * TWO_32 + (TWO_32 - 1 - client))
  }

  /** No row inside the wrapper reaches the address but the wrapper's own. */
  ghost predicate OnlyWrapper(w: Network, a: Address) {
    forall m :: NoRowInsideWrapper(m) && ValidNetwork(m) && Contains(m, a) && Inside(m, w) ==> m == w
  }

  /** An address inside a wrapper no longer-prefix row of which reaches it is decided by the wrapper's row. */
  lemma WrapperDecides(w: Network, a: Address)
    requires ValidNetwork(w) && Contains(w, a) && Block(w, Translated) in TABLE
    requires OnlyWrapper(w, a)
    ensures Match(SHIPPED, a) == Some(Block(w, Translated))
  {
    hide Match, TableOf, NoRowInsideWrapper, ValidNetwork, Contains, Inside, IANA_V4, IANA_V6, EXTRA, METADATA;
    TableIsValid();
    forall c | c in TABLE && Contains(c.network, a)
      ensures c.network.prefixLen <= w.prefixLen
    {
      var i :| 0 <= i < |TABLE| && TABLE[i] == c;
      RowFacts(i);
      if w.prefixLen < c.network.prefixLen {
        Nested(c.network, w, a);
      }
    }
    assert Decides(TABLE, a, Block(w, Translated));
    MatchMeaning(TABLE, a);
  }

  lemma WrapperRows()
    ensures IANA_V6[2] == Block(MAPPED, Translated) && IANA_V6[3] == Block(NAT64, Translated)
    ensures IANA_V6[8] == Block(TEREDO, Translated) && IANA_V6[19] == Block(SIX_TO_FOUR, Translated)
    ensures EXTRA[0] == Block(COMPATIBLE, Translated)
  {
  }

  lemma InTable(b: Block)
    requires b in IANA_V4 || b in IANA_V6 || b in EXTRA
    ensures b in TABLE && b in ESSENTIAL
  {
    hide IANA_V4, IANA_V6, EXTRA, METADATA;
  }

  lemma WrapperSizes()
    ensures ValidNetwork(MAPPED) && ValidNetwork(NAT64) && ValidNetwork(COMPATIBLE)
    ensures ValidNetwork(SIX_TO_FOUR) && ValidNetwork(TEREDO)
    ensures Size(MAPPED) == Size(NAT64) == Size(COMPATIBLE) == TWO_32
    ensures Size(SIX_TO_FOUR) == TWO_112 && Size(TEREDO) == TWO_96
  {
    SmallPowers();
    LargePowers();
    hide Pow2;
  }

  lemma Wrappers()
    ensures Block(MAPPED, Translated) in TABLE && Block(NAT64, Translated) in TABLE
    ensures Block(COMPATIBLE, Translated) in TABLE && Block(SIX_TO_FOUR, Translated) in TABLE
    ensures Block(TEREDO, Translated) in TABLE
  {
    WrapperRows();
    hide IANA_V4, METADATA, TABLE;
    InTable(IANA_V6[2]);
    InTable(IANA_V6[3]);
    InTable(IANA_V6[8]);
    InTable(IANA_V6[19]);
    InTable(EXTRA[0]);
  }

  /** A wrapped address is refused exactly when something it carries is. */
  lemma WrappedVerdict(w: Network, a: Address)
    requires ValidNetwork(w) && Contains(w, a) && Block(w, Translated) in TABLE && a.V6?
    requires OnlyWrapper(w, a)
    requires EmbeddedV4(a, w) != []
    ensures Blocked(SHIPPED, a) <==> exists i :: 0 <= i < |EmbeddedV4(a, w)| && Blocked(SHIPPED, EmbeddedV4(a, w)[i])
  {
    hide Match, Blocked, EmbeddedV4, NoRowInsideWrapper, ValidNetwork, Contains, Inside, TABLE, SHIPPED;
    WrapperDecides(w, a);
    ClassifyMeaning(SHIPPED, a);
  }

  /** The rows inside a wrapper all start inside it. */
  lemma StartsInside(m: Network, w: Network)
    requires ValidNetwork(m) && ValidNetwork(w) && Inside(m, w)
    ensures m.version == w.version && w.prefixLen <= m.prefixLen && w.base <= m.base < w.base + Size(w)
  {
    InsideIsLonger(m, w);
  }

  lemma LoneWrapper(w: Network, a: Address)
    requires ValidNetwork(w) && Contains(w, a)
    requires w == MAPPED || w == NAT64 || w == SIX_TO_FOUR || w == TEREDO || (w == COMPATIBLE && a.value >= 2)
    ensures OnlyWrapper(w, a)
  {
    hide Contains, Inside, ValidNetwork, Pow2;
    WrapperSizes();
    forall m | NoRowInsideWrapper(m) && ValidNetwork(m) && Contains(m, a) && Inside(m, w)
      ensures m == w
    {
      StartsInside(m, w);
      ContainsInterval(m, a);
      if m.prefixLen == 128 {
        HostSize(m);
      }
    }
  }

  lemma HostSize(m: Network)
    requires m.prefixLen == Width(m.version)
    ensures Size(m) == 1
  {
  }

  /** Whatever it is mapped, translated or relayed as, an IPv4 address keeps its verdict: for all 32-bit
      `v` and any low 80 bits of a 6to4 address, the four forms are refused exactly when `v` is. */
  lemma FormsKeepVerdict(v: nat, low: nat)
    requires v < TWO_32 && low < TWO_80
    ensures Blocked(SHIPPED, MappedForm(v)) <==> Blocked(SHIPPED, V4(v))
    ensures Blocked(SHIPPED, Nat64Form(v)) <==> Blocked(SHIPPED, V4(v))
    ensures Blocked(SHIPPED, SixToFourForm(v, low)) <==> Blocked(SHIPPED, V4(v))
    ensures Blocked(SHIPPED, CompatibleForm(v)) <==> Blocked(SHIPPED, V4(v))
  {
    hide Blocked, SHIPPED, TABLE, Contains, ValidNetwork, Size, EmbeddedV4;
    WrapperSizes();
    SingleCarried(MAPPED, MappedForm(v), v);
    SingleCarried(NAT64, Nat64Form(v), v);
    SingleCarried(SIX_TO_FOUR, SixToFourForm(v, low), v);
    if v >= 2 {
      SingleCarried(COMPATIBLE, CompatibleForm(v), v);
    } else {
      LowAddresses(v);
    }
  }

  lemma SingleCarried(w: Network, a: Address, v: nat)
    requires w == MAPPED || w == NAT64 || w == SIX_TO_FOUR || (w == COMPATIBLE && a.value >= 2)
    requires a.V6? && w.base <= a.value < w.base + Size(w)
    requires v < TWO_32
    requires v == if w == SIX_TO_FOUR then a.value / TWO_80 % TWO_32 else a.value % TWO_32
    ensures Blocked(SHIPPED, a) <==> Blocked(SHIPPED, V4(v))
  {
    hide Blocked, SHIPPED, TABLE, Contains, ValidNetwork, Size;
    WrapperSizes();
    Wrappers();
    ContainsInterval(w, a);
    LoneWrapper(w, a);
    assert EmbeddedV4(a, w) == [V4(v)];
    WrappedVerdict(w, a);
    assert Blocked(SHIPPED, EmbeddedV4(a, w)[0]) == Blocked(SHIPPED, V4(v));
  }

  /** A sum of a multiple of `d` and a remainder comes apart by division. */
  lemma ComesApart(q: nat, r: nat, d: nat)
    requires r < d
    ensures (q * d + r) / d == q && (q * d + r) % d == r
  {
    var x := q * d + r;
    assert x == (x / d) * d + x % d;
    MultipleIsFar(q - x / d, d);
    assert (q - x / d) * d == q * d - (x / d) * d;
  }

  lemma TeredoServer(server: nat, middle: nat, client: nat)
    requires server < TWO_32 && middle < TWO_32 && client < TWO_32
    ensures TeredoForm(server, middle, client).value / TWO_64 % TWO_32 == server
  {
    var low := middle * TWO_32 + (TWO_32 - 1 - client);
    assert TeredoForm(server, middle, client).value == (0x2001_0000 * TWO_32 + server) * TWO_64 + low;
    ComesApart(0x2001_0000 * TWO_32 + server, low, TWO_64);
    ComesApart(0x2001_0000, server, TWO_32);
  }

  lemma TeredoClient(server: nat, middle: nat, client: nat)
    requires server < TWO_32 && middle < TWO_32 && client < TWO_32
    ensures TWO_32 - 1 - TeredoForm(server, middle, client).value % TWO_32 == client
  {
    var high := 0x2001_0000 * TWO_64 + server * TWO_32 + middle;
    assert TeredoForm(server, middle, client).value == high * TWO_32 + (TWO_32 - 1 - client);
    ComesApart(high, TWO_32 - 1 - client, TWO_32);
  }

  lemma TeredoCarries(server: nat, middle: nat, client: nat)
    requires server < TWO_32 && middle < TWO_32 && client < TWO_32
    ensures EmbeddedV4(TeredoForm(server, middle, client), TEREDO) == [V4(server), V4(client)]
    ensures TEREDO.base <= TeredoForm(server, middle, client).value < TEREDO.base + TWO_96
  {
    TeredoServer(server, middle, client);
    TeredoClient(server, middle, client);
    TeredoRange(server, middle, client);
    hide TeredoForm;
  }

  lemma TeredoRange(server: nat, middle: nat, client: nat)
    requires server < TWO_32 && middle < TWO_32 && client < TWO_32
    ensures TEREDO.base <= TeredoForm(server, middle, client).value < TEREDO.base + TWO_96
  {
  }

  /** A Teredo address is refused exactly when its server or its client is. */
  lemma TeredoVerdict(server: nat, middle: nat, client: nat)
    requires server < TWO_32 && middle < TWO_32 && client < TWO_32
    ensures Blocked(SHIPPED, TeredoForm(server, middle, client))
            <==> Blocked(SHIPPED, V4(server)) || Blocked(SHIPPED, V4(client))
  {
    hide Blocked, SHIPPED, TABLE, Contains, ValidNetwork, Size, EmbeddedV4;
    var a := TeredoForm(server, middle, client);
    WrapperSizes();
    Wrappers();
    TeredoCarries(server, middle, client);
    ContainsInterval(TEREDO, a);
    LoneWrapper(TEREDO, a);
    WrappedVerdict(TEREDO, a);
    assert Blocked(SHIPPED, EmbeddedV4(a, TEREDO)[0]) == Blocked(SHIPPED, V4(server));
    assert Blocked(SHIPPED, EmbeddedV4(a, TEREDO)[1]) == Blocked(SHIPPED, V4(client));
  }

  // ---------- the lowest two addresses ----------

  lemma LowRows()
    ensures IANA_V4[0] == Block(Network(Four, 0, 8), Denied) && IANA_V4[1] == Block(Network(Four, 0, 32), Denied)
    ensures IANA_V6[0] == Block(Network(Six, 1, 128), Denied) && IANA_V6[1] == Block(Network(Six, 0, 128), Denied)
  {
  }

  /** A host row decides its own address. */
  lemma HostDecides(b: Block, a: Address)
    requires b in TABLE && ValidNetwork(b.network) && Contains(b.network, a)
    requires b.network.prefixLen == Width(b.network.version) && b.reach.Denied?
    ensures Match(SHIPPED, a) == Some(b) && Blocked(SHIPPED, a)
  {
    hide Match, TableOf, ValidNetwork, Contains, IANA_V4, IANA_V6, EXTRA, METADATA;
    TableIsValid();
    forall c | c in TABLE && Contains(c.network, a)
      ensures c.network.prefixLen <= b.network.prefixLen
    {
      var i :| 0 <= i < |TABLE| && TABLE[i] == c;
      RowFacts(i);
      PrefixFits(c.network, b.network, a);
    }
    assert Decides(TABLE, a, b);
    MatchMeaning(TABLE, a);
    ClassifyMeaning(SHIPPED, a);
  }

  lemma PrefixFits(m: Network, n: Network, a: Address)
    requires ValidNetwork(m) && Contains(m, a) && Contains(n, a)
    ensures m.prefixLen <= Width(n.version)
  {
  }

  /** Of the rows that start at 0 or 1, only 0.0.0.0/8 holds 0.0.0.1. */
  lemma OverLowestHost(m: Network)
    requires ValidNetwork(m) && NoRowInsideWrapper(m) && Contains(m, V4(1))
    ensures m.prefixLen <= 8
  {
    SmallPowers();
    ContainsInterval(m, V4(1));
  }

  lemma HostNetwork(n: Network)
    requires n.prefixLen == Width(n.version) && n.base <= 1
    ensures ValidNetwork(n) && Contains(n, First(n))
  {
    HostSize(n);
    SmallPowers();
    LargePowers();
    hide Pow2;
  }

  lemma ThisNetwork()
    ensures ValidNetwork(Network(Four, 0, 8)) && Contains(Network(Four, 0, 8), V4(1))
  {
    SmallPowers();
    hide Pow2;
    assert Size(Network(Four, 0, 8)) == 0x0100_0000;
    ContainsInterval(Network(Four, 0, 8), V4(1));
  }

  lemma LowRowsInTable()
    ensures Block(Network(Four, 0, 8), Denied) in TABLE && Block(Network(Four, 0, 32), Denied) in TABLE
    ensures Block(Network(Six, 1, 128), Denied) in TABLE && Block(Network(Six, 0, 128), Denied) in TABLE
  {
    LowRows();
    hide TABLE;
    InTable(IANA_V4[0]);
    InTable(IANA_V4[1]);
    InTable(IANA_V6[0]);
    InTable(IANA_V6[1]);
  }

  /** 0.0.0.1 is refused by the first row of the table. */
  lemma LowestHost()
    ensures Blocked(SHIPPED, V4(1))
  {
    hide Match, TableOf, ValidNetwork, Contains, NoRowInsideWrapper, IANA_V4, IANA_V6, EXTRA, METADATA;
    var a, b := V4(1), Block(Network(Four, 0, 8), Denied);
    LowRowsInTable();
    ThisNetwork();
    TableIsValid();
    forall c | c in TABLE && Contains(c.network, a)
      ensures c.network.prefixLen <= b.network.prefixLen
    {
      var i :| 0 <= i < |TABLE| && TABLE[i] == c;
      RowFacts(i);
      OverLowestHost(c.network);
    }
    assert Decides(TABLE, a, b);
    MatchMeaning(TABLE, a);
    ClassifyMeaning(SHIPPED, a);
  }

  lemma LowAddresses(v: nat)
    requires v <= 1
    ensures Blocked(SHIPPED, V4(v)) && Blocked(SHIPPED, V6(v))
  {
    hide Blocked, SHIPPED, TABLE, ValidNetwork, Contains;
    LowRowsInTable();
    HostNetwork(Network(Four, 0, 32));
    HostNetwork(Network(Six, v, 128));
    if v == 0 {
      HostDecides(Block(Network(Four, 0, 32), Denied), V4(0));
      HostDecides(Block(Network(Six, 0, 128), Denied), V6(0));
    } else {
      LowestHost();
      HostDecides(Block(Network(Six, 1, 128), Denied), V6(1));
    }
  }

  // ---------- the metadata rows ----------

  const COVERS: seq<Network> := [LINK_LOCAL, LINK_LOCAL, SHARED, PROTOCOL, UNIQUE_LOCAL]

  lemma CoverRows()
    ensures Block(LINK_LOCAL, Denied) in IANA_V4 && Block(SHARED, Denied) in IANA_V4
    ensures Block(PROTOCOL, Denied) in IANA_V4 && Block(UNIQUE_LOCAL, Denied) in IANA_V6
  {
    assert IANA_V4[5] == Block(LINK_LOCAL, Denied) && IANA_V4[3] == Block(SHARED, Denied);
    assert IANA_V4[7] == Block(PROTOCOL, Denied) && IANA_V6[23] == Block(UNIQUE_LOCAL, Denied);
  }

  lemma CoversInTable(k: nat)
    requires k < |COVERS|
    ensures Block(COVERS[k], Denied) in ESSENTIAL
  {
    hide ESSENTIAL, IANA_V4, IANA_V6;
    CoverRows();
    InTable(Block(COVERS[k], Denied));
  }

  lemma CoverSizes()
    ensures forall k :: 0 <= k < |COVERS| ==> ValidNetwork(COVERS[k])
    ensures Size(LINK_LOCAL) == 0x1_0000 && Size(SHARED) == 0x40_0000 && Size(PROTOCOL) == 0x100
    ensures Size(UNIQUE_LOCAL) == 0x0200_0000_0000_0000_0000_0000_0000_0000
  {
    SmallPowers();
    LargePowers();
    hide Pow2;
  }

  /** Each metadata host lies inside its covering block. */
  lemma CoverContains(k: nat)
    requires k < |METADATA|
    ensures var d, w := METADATA[k].network, COVERS[k];
            && METADATA[k].reach.Denied?
            && ValidNetwork(w) && ValidNetwork(d)
            && w.version == d.version && w.base <= d.base < w.base + Size(w)
            && d.prefixLen == Width(d.version)
            && (w == PROTOCOL ==> d.base == ORACLE_HOST)
  {
    hide ValidNetwork, Pow2, Size, NoRowInsideWrapper;
    RowMetadata(k);
    CoverSizes();
  }

  /** The smallest essential row around a metadata host is its covering block. */
  lemma CoverDecides(k: nat)
    requires k < |METADATA|
    ensures DecidingBlock(ESSENTIAL, METADATA[k].network) == Some(Block(COVERS[k], Denied))
  {
    hide IANA_V4, IANA_V6, EXTRA, DecidingBlock;
    var d, w := METADATA[k].network, COVERS[k];
    CoverContains(k);
    CoversInTable(k);
    HostSize(d);
    assert Inside(d, w);
    var found := DecidingBlock(ESSENTIAL, d);
    assert found.Some?;
    var e := found.value.network;
    var i :| 0 <= i < |ESSENTIAL| && ESSENTIAL[i] == found.value;
    EssentialRows();
    RowFacts(i);
    FirstInside(d);
    InsideContains(d, e, First(d));
    InsideContains(d, w, First(d));
    Nested(e, w, First(d));
    CoverIsE(e, w, d);
    TableIsValid();
    DistinctBlocks(ESSENTIAL, found.value, Block(w, Denied));
  }

  lemma CoverIsE(e: Network, w: Network, d: Network)
    requires w in COVERS && ValidNetwork(e) && ValidNetwork(w) && NoRowOverMetadata(e)
    requires Inside(e, w) && Inside(d, e) && Size(d) == 1 && (w == PROTOCOL ==> d.base == ORACLE_HOST)
    ensures e == w
  {
    SmallPowers();
    LargePowers();
    hide Pow2;
    StartsInside(e, w);
  }

  /** Dropping all five metadata rows costs a message and never a denial. */
  lemma MetadataRowsAreRedundant(a: Address)
    ensures Blocked(SHIPPED, a) == Blocked(TableOf(ESSENTIAL), a)
  {
    hide IANA_V4, IANA_V6, EXTRA, METADATA, TableOf, Blocked, DecidingBlock;
    forall d | d in TABLE && d !in ESSENTIAL
      ensures d.reach.Denied? && DecidingBlock(ESSENTIAL, d.network).Some?
      ensures DecidingBlock(ESSENTIAL, d.network).value.reach.Denied?
    {
      var k :| 0 <= k < |METADATA| && METADATA[k] == d;
      CoverContains(k);
      CoverDecides(k);
    }
    TableIsValid();
    RedundantRowsChangeNothing(TABLE, ESSENTIAL, a);
  }
}

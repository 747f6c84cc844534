/** What the shipped table refuses, address by address: its sixty rows as intervals of numbers. */
module Verdicts {
  import opened Wire
  import opened Networks
  import opened AddressTable
  import opened Registry

  predicate In(v: nat, low: nat, high: nat) { low <= v <= high }

  // ---------- IPv4 ----------

  /** The ranges some row denies. */
  predicate Wide4(v: nat) {
    || In(v, 0x0000_0000, 0x00FF_FFFF) // 0.0.0.0 - 0.255.255.255
    || In(v, 0x0A00_0000, 0x0AFF_FFFF) // 10.0.0.0 - 10.255.255.255
    || In(v, 0x6440_0000, 0x647F_FFFF) // 100.64.0.0 - 100.127.255.255
    || In(v, 0x7F00_0000, 0x7FFF_FFFF) // 127.0.0.0 - 127.255.255.255
    || In(v, 0xA9FE_0000, 0xA9FE_FFFF) // 169.254.0.0 - 169.254.255.255
    || In(v, 0xAC10_0000, 0xAC1F_FFFF) // 172.16.0.0 - 172.31.255.255
    || In(v, 0xC000_0000, 0xC000_00FF) // 192.0.0.0 - 192.0.0.255
    || In(v, 0xC000_0200, 0xC000_02FF) // 192.0.2.0 - 192.0.2.255
    || In(v, 0xC058_6300, 0xC058_63FF) // 192.88.99.0 - 192.88.99.255
    || In(v, 0xC0A8_0000, 0xC0A8_FFFF) // 192.168.0.0 - 192.168.255.255
    || In(v, 0xC612_0000, 0xC613_FFFF) // 198.18.0.0 - 198.19.255.255
    || In(v, 0xC633_6400, 0xC633_64FF) // 198.51.100.0 - 198.51.100.255
    || In(v, 0xCB00_7100, 0xCB00_71FF) // 203.0.113.0 - 203.0.113.255
    || In(v, 0xE000_0000, 0xFFFF_FFFF) // 224.0.0.0 - 255.255.255.255
  }

  /** What is permitted inside them: 192.0.0.9 and 192.0.0.10. */
  predicate Spared4(v: nat) {
    In(v, 0xC000_0009, 0xC000_000A)
  }

  predicate Refused4(v: nat) {
    Wide4(v) && !Spared4(v)
  }

  // ---------- IPv6 ----------

  /** The ranges outside the five wrappers that some row denies. */
  predicate Wide6(v: nat) {
    || In(v, 0, 1) // :: and ::1
    // 64:ff9b:1::/48
    || In(v, 0x0064_FF9B_0001_0000_0000_0000_0000_0000, 0x0064_FF9B_0001_FFFF_FFFF_FFFF_FFFF_FFFF)
    // 100::/64 and 100:0:0:1::/64
    || In(v, 0x0100_0000_0000_0000_0000_0000_0000_0000, 0x0100_0000_0000_0001_FFFF_FFFF_FFFF_FFFF)
    // 2001::/23
    || In(v, 0x2001_0000_0000_0000_0000_0000_0000_0000, 0x2001_01FF_FFFF_FFFF_FFFF_FFFF_FFFF_FFFF)
    // 2001:db8::/32
    || In(v, 0x2001_0DB8_0000_0000_0000_0000_0000_0000, 0x2001_0DB8_FFFF_FFFF_FFFF_FFFF_FFFF_FFFF)
    // 3fff::/20
    || In(v, 0x3FFF_0000_0000_0000_0000_0000_0000_0000, 0x3FFF_0FFF_FFFF_FFFF_FFFF_FFFF_FFFF_FFFF)
    // 5f00::/16
    || In(v, 0x5F00_0000_0000_0000_0000_0000_0000_0000, 0x5F00_FFFF_FFFF_FFFF_FFFF_FFFF_FFFF_FFFF)
    // fc00::/7
    || In(v, 0xFC00_0000_0000_0000_0000_0000_0000_0000, 0xFDFF_FFFF_FFFF_FFFF_FFFF_FFFF_FFFF_FFFF)
    // fe80::/10, fec0::/10 and ff00::/8
    || In(v, 0xFE80_0000_0000_0000_0000_0000_0000_0000, 0xFFFF_FFFF_FFFF_FFFF_FFFF_FFFF_FFFF_FFFF)
  }

  /** What is permitted inside 2001::/23. */
  predicate Spared6(v: nat) {
    || In(v, 0x2001_0001_0000_0000_0000_0000_0000_0001, 0x2001_0001_0000_0000_0000_0000_0000_0003) // 2001:1::1 to 3
    // 2001:3::/32
    || In(v, 0x2001_0003_0000_0000_0000_0000_0000_0000, 0x2001_0003_FFFF_FFFF_FFFF_FFFF_FFFF_FFFF)
    // 2001:4:112::/48
    || In(v, 0x2001_0004_0112_0000_0000_0000_0000_0000, 0x2001_0004_0112_FFFF_FFFF_FFFF_FFFF_FFFF)
    // 2001:20::/28 and 2001:30::/28
    || In(v, 0x2001_0020_0000_0000_0000_0000_0000_0000, 0x2001_003F_FFFF_FFFF_FFFF_FFFF_FFFF_FFFF)
  }

  /** The wrapper an address is in, if any: two addresses below ::2 have rows of their own. */
  predicate Wrapped(v: nat) {
    || In(v, 2, TWO_32 - 1)
    || In(v, MAPPED.base, MAPPED.base + TWO_32 - 1)
    || In(v, NAT64.base, NAT64.base + TWO_32 - 1)
    || In(v, SIX_TO_FOUR.base, SIX_TO_FOUR.base + TWO_112 - 1)
    || In(v, TEREDO.base, TEREDO.base + TWO_96 - 1)
  }

  /** A wrapped address is refused for what it carries, any other for its own range. */
  predicate Refused6(v: nat) {
    if In(v, 2, TWO_32 - 1) then Refused4(v)
    else if In(v, MAPPED.base, MAPPED.base + TWO_32 - 1) then Refused4(v - MAPPED.base)
    else if In(v, NAT64.base, NAT64.base + TWO_32 - 1) then Refused4(v - NAT64.base)
    else if In(v, SIX_TO_FOUR.base, SIX_TO_FOUR.base + TWO_112 - 1) then Refused4(v / TWO_80 % TWO_32)
    else if In(v, TEREDO.base, TEREDO.base + TWO_96 - 1) then
      Refused4(v / TWO_64 % TWO_32) || Refused4(TWO_32 - 1 - v % TWO_32)
    else Wide6(v) && !Spared6(v)
  }

  // ---------- row by row ----------

  /** A row that reaches an IPv4 address. */
  predicate Reaches(b: Block, version: Version, v: nat) {
    b.network.version == version && b.network.base <= v < b.network.base + Size(b.network)
  }

  /** What a row that reaches an address says of it: a denying one puts it in a wide range, and is a short prefix
      if the address is spared; a permitting one has it spared, or outside the wide ranges. */
  predicate Says4(b: Block, v: nat) {
    Reaches(b, Four, v) ==>
      && !b.reach.Translated?
      && (b.reach.Denied? ==> Wide4(v) && (Spared4(v) ==> b.network.prefixLen <= 24))
      && (b.reach.Permitted? ==> Spared4(v) || !Wide4(v))
  }

  predicate Says6(b: Block, v: nat) {
    Reaches(b, Six, v) ==>
      && (b.reach.Translated? ==> Wrapped(v) || v <= 1)
      && (b.reach.Denied? && !Wrapped(v) ==> Wide6(v) && (Spared6(v) ==> b.network.prefixLen <= 24))
      && (b.reach.Permitted? ==> Spared6(v) || !Wide6(v))
  }

  lemma RowsV4Say(i: nat, v: nat)
    requires i < |IANA_V4|
    ensures Says4(IANA_V4[i], v) && Says6(IANA_V4[i], v)
  {
    SmallPowers();
    hide Pow2;
  }

  lemma RowsV6Say(i: nat, v: nat)
    requires i < |IANA_V6|
    ensures Says4(IANA_V6[i], v) && Says6(IANA_V6[i], v)
  {
    SmallPowers();
    LargePowers();
    hide Pow2;
  }

  lemma OtherRowsSay(i: nat, v: nat)
    ensures i < |EXTRA| ==> Says4(EXTRA[i], v) && Says6(EXTRA[i], v)
    ensures i < |METADATA| ==> Says4(METADATA[i], v) && Says6(METADATA[i], v)
  {
    SmallPowers();
    LargePowers();
    hide Pow2;
  }

  lemma DenyingRows4Low()
    ensures |IANA_V4| == 26
    ensures IANA_V4[0] == Block(Network(Four, 0, 8), Denied)
    ensures IANA_V4[2] == Block(Network(Four, 0x0A00_0000, 8), Denied)
    ensures IANA_V4[3] == Block(Network(Four, 0x6440_0000, 10), Denied)
    ensures IANA_V4[4] == Block(Network(Four, 0x7F00_0000, 8), Denied)
    ensures IANA_V4[5] == Block(Network(Four, 0xA9FE_0000, 16), Denied)
    ensures IANA_V4[6] == Block(Network(Four, 0xAC10_0000, 12), Denied)
    ensures IANA_V4[7] == Block(Network(Four, 0xC000_0000, 24), Denied)
  {
  }

  lemma DenyingRows4High()
    ensures |IANA_V4| == 26 && |EXTRA| == 4
    ensures IANA_V4[14] == Block(Network(Four, 0xC000_0200, 24), Denied)
    ensures IANA_V4[17] == Block(Network(Four, 0xC058_6300, 24), Denied)
    ensures IANA_V4[19] == Block(Network(Four, 0xC0A8_0000, 16), Denied)
    ensures IANA_V4[21] == Block(Network(Four, 0xC612_0000, 15), Denied)
    ensures IANA_V4[22] == Block(Network(Four, 0xC633_6400, 24), Denied)
    ensures IANA_V4[23] == Block(Network(Four, 0xCB00_7100, 24), Denied)
    ensures IANA_V4[24] == Block(Network(Four, 0xF000_0000, 4), Denied)
    ensures EXTRA[1] == Block(Network(Four, 0xE000_0000, 4), Denied)
  {
  }

  lemma DenyingRows6()
    ensures |IANA_V6| == 25 && |EXTRA| == 4
    ensures IANA_V6[0] == Block(Network(Six, 0x0001, 128), Denied)
    ensures IANA_V6[1] == Block(Network(Six, 0, 128), Denied)
    ensures IANA_V6[4] == Block(Network(Six, 0x0064_FF9B_0001_0000_0000_0000_0000_0000, 48), Denied)
    ensures IANA_V6[5] == Block(Network(Six, 0x0100_0000_0000_0000_0000_0000_0000_0000, 64), Denied)
    ensures IANA_V6[6] == Block(Network(Six, 0x0100_0000_0000_0001_0000_0000_0000_0000, 64), Denied)
    ensures IANA_V6[7] == Block(Network(Six, 0x2001_0000_0000_0000_0000_0000_0000_0000, 23), Denied)
    ensures IANA_V6[18] == Block(Network(Six, 0x2001_0DB8_0000_0000_0000_0000_0000_0000, 32), Denied)
    ensures IANA_V6[21] == Block(Network(Six, 0x3FFF_0000_0000_0000_0000_0000_0000_0000, 20), Denied)
    ensures IANA_V6[22] == Block(Network(Six, 0x5F00_0000_0000_0000_0000_0000_0000_0000, 16), Denied)
    ensures IANA_V6[23] == Block(Network(Six, 0xFC00_0000_0000_0000_0000_0000_0000_0000, 7), Denied)
    ensures IANA_V6[24] == Block(Network(Six, 0xFE80_0000_0000_0000_0000_0000_0000_0000, 10), Denied)
    ensures EXTRA[2] == Block(Network(Six, 0xFF00_0000_0000_0000_0000_0000_0000_0000, 8), Denied)
    ensures EXTRA[3] == Block(Network(Six, 0xFEC0_0000_0000_0000_0000_0000_0000_0000, 10), Denied)
  {
  }

  lemma SparingRows()
    ensures |IANA_V4| == 26 && |IANA_V6| == 25
    ensures IANA_V4[10] == Block(Network(Four, 0xC000_0009, 32), Permitted)
    ensures IANA_V4[11] == Block(Network(Four, 0xC000_000A, 32), Permitted)
    ensures IANA_V6[9] == Block(Network(Six, 0x2001_0001_0000_0000_0000_0000_0000_0001, 128), Permitted)
    ensures IANA_V6[10] == Block(Network(Six, 0x2001_0001_0000_0000_0000_0000_0000_0002, 128), Permitted)
    ensures IANA_V6[11] == Block(Network(Six, 0x2001_0001_0000_0000_0000_0000_0000_0003, 128), Permitted)
    ensures IANA_V6[13] == Block(Network(Six, 0x2001_0003_0000_0000_0000_0000_0000_0000, 32), Permitted)
    ensures IANA_V6[14] == Block(Network(Six, 0x2001_0004_0112_0000_0000_0000_0000_0000, 48), Permitted)
    ensures IANA_V6[16] == Block(Network(Six, 0x2001_0020_0000_0000_0000_0000_0000_0000, 28), Permitted)
    ensures IANA_V6[17] == Block(Network(Six, 0x2001_0030_0000_0000_0000_0000_0000_0000, 28), Permitted)
  {
  }

  /** Every address in a wide range is reached by a row that denies. */
  lemma DenyingRow4(v: nat) returns (b: Block)
    requires Wide4(v)
    ensures (b in IANA_V4 || b in EXTRA) && b.reach.Denied? && Reaches(b, Four, v)
  {
    hide IANA_V4, EXTRA, Pow2;
    DenyingRows4Low();
    DenyingRows4High();
    SmallPowers();
    b := if In(v, 0x0000_0000, 0x00FF_FFFF) then IANA_V4[0]
    else if In(v, 0x0A00_0000, 0x0AFF_FFFF) then IANA_V4[2]
    else if In(v, 0x6440_0000, 0x647F_FFFF) then IANA_V4[3]
    else if In(v, 0x7F00_0000, 0x7FFF_FFFF) then IANA_V4[4]
    else if In(v, 0xA9FE_0000, 0xA9FE_FFFF) then IANA_V4[5]
    else if In(v, 0xAC10_0000, 0xAC1F_FFFF) then IANA_V4[6]
    else if In(v, 0xC000_0000, 0xC000_00FF) then IANA_V4[7]
    else if In(v, 0xC000_0200, 0xC000_02FF) then IANA_V4[14]
    else if In(v, 0xC058_6300, 0xC058_63FF) then IANA_V4[17]
    else if In(v, 0xC0A8_0000, 0xC0A8_FFFF) then IANA_V4[19]
    else if In(v, 0xC612_0000, 0xC613_FFFF) then IANA_V4[21]
    else if In(v, 0xC633_6400, 0xC633_64FF) then IANA_V4[22]
    else if In(v, 0xCB00_7100, 0xCB00_71FF) then IANA_V4[23]
    else if v < 0xF000_0000 then EXTRA[1]
    else IANA_V4[24];
  }

  lemma DenyingRow6(v: nat) returns (b: Block)
    requires Wide6(v)
    ensures (b in IANA_V6 || b in EXTRA) && b.reach.Denied? && Reaches(b, Six, v)
  {
    hide IANA_V6, EXTRA, Pow2;
    DenyingRows6();
    SmallPowers();
    LargePowers();
    b := if v == 0 then IANA_V6[1]
    else if v == 1 then IANA_V6[0]
    else if v < 0x0100_0000_0000_0000_0000_0000_0000_0000 then IANA_V6[4]
    else if v < 0x0100_0000_0000_0001_0000_0000_0000_0000 then IANA_V6[5]
    else if v < 0x2001_0000_0000_0000_0000_0000_0000_0000 then IANA_V6[6]
    else if v < 0x2001_0DB8_0000_0000_0000_0000_0000_0000 then IANA_V6[7]
    else if v < 0x3FFF_0000_0000_0000_0000_0000_0000_0000 then IANA_V6[18]
    else if v < 0x5F00_0000_0000_0000_0000_0000_0000_0000 then IANA_V6[21]
    else if v < 0xFC00_0000_0000_0000_0000_0000_0000_0000 then IANA_V6[22]
    else if v < 0xFE80_0000_0000_0000_0000_0000_0000_0000 then IANA_V6[23]
    else if v < 0xFEC0_0000_0000_0000_0000_0000_0000_0000 then IANA_V6[24]
    else if v < 0xFF00_0000_0000_0000_0000_0000_0000_0000 then EXTRA[3]
    else EXTRA[2];
  }

  /** Every spared address is reached by a row with a long prefix that permits. */
  lemma SparingRow(version: Version, v: nat) returns (b: Block)
    requires if version == Four then Spared4(v) else Spared6(v)
    ensures (b in IANA_V4 || b in IANA_V6) && b.reach.Permitted? && Reaches(b, version, v) && b.network.prefixLen > 24
  {
    hide IANA_V4, IANA_V6, Pow2;
    SparingRows();
    SmallPowers();
    LargePowers();
    b := if version == Four then (if v == 0xC000_0009 then IANA_V4[10] else IANA_V4[11])
    else if v == 0x2001_0001_0000_0000_0000_0000_0000_0001 then IANA_V6[9]
    else if v == 0x2001_0001_0000_0000_0000_0000_0000_0002 then IANA_V6[10]
    else if v == 0x2001_0001_0000_0000_0000_0000_0000_0003 then IANA_V6[11]
    else if v < 0x2001_0004_0000_0000_0000_0000_0000_0000 then IANA_V6[13]
    else if v < 0x2001_0020_0000_0000_0000_0000_0000_0000 then IANA_V6[14]
    else if v < 0x2001_0030_0000_0000_0000_0000_0000_0000 then IANA_V6[16]
    else IANA_V6[17];
  }

  // ---------- the table ----------

  lemma RowSays(i: nat, v: nat)
    requires i < |TABLE|
    ensures Says4(TABLE[i], v) && Says6(TABLE[i], v)
  {
    hide Says4, Says6;
    RowOf(i);
    if i < 26 {
      RowsV4Say(i, v);
    } else if i < 51 {
      RowsV6Say(i - 26, v);
    } else {
      OtherRowsSay(if i < 55 then i - 51 else i - 55, v);
    }
  }

  function At(version: Version, v: nat): (a: Address) {
    if version == Four then V4(v) else V6(v)
  }

  /** A row contains an address exactly when it reaches it, and says of it what it says. */
  lemma RowsAt(version: Version, v: nat, c: Block)
    requires c in TABLE
    ensures ValidNetwork(c.network) && (Contains(c.network, At(version, v)) <==> Reaches(c, version, v))
    ensures Says4(c, v) && Says6(c, v)
  {
    hide Says4, Says6, Contains, ValidNetwork, TABLE;
    var i :| 0 <= i < |TABLE| && TABLE[i] == c;
    RowFacts(i);
    RowSays(i, v);
    ContainsInterval(c.network, At(version, v));
  }

  /** What the longest row that reaches an address amounts to, outside the wrappers. */
  lemma Deciding(version: Version, v: nat)
    requires version == Six ==> !Wrapped(v) && v > 1
    ensures var found := Match(SHIPPED, At(version, v));
            && (found.Some? ==> !found.value.reach.Translated?)
            && (found.Some? && found.value.reach.Denied?
                <==> if version == Four then Refused4(v) else Wide6(v) && !Spared6(v))
  {
    hide Match, TableOf, TABLE, Contains, Reaches, Wide4, Wide6, Spared4, Spared6, Wrapped;
    var a := At(version, v);
    TableIsValid();
    MatchMeaning(TABLE, a);
    var found := Match(SHIPPED, a);
    if found.Some? {
      assert Decides(TABLE, a, found.value);
      RowsAt(version, v, found.value);
    }
    if if version == Four then Wide4(v) else Wide6(v) {
      var b := DenyingRow(version, v);
      RowsAt(version, v, b);
    }
    if if version == Four then Spared4(v) else Spared6(v) {
      var b := SparingRow(version, v);
      InTable(b);
      RowsAt(version, v, b);
    }
  }

  lemma DenyingRow(version: Version, v: nat) returns (b: Block)
    requires if version == Four then Wide4(v) else Wide6(v)
    ensures b in TABLE && b.reach.Denied? && Reaches(b, version, v)
  {
    hide Reaches, Wide4, Wide6, TABLE;
    if version == Four {
      b := DenyingRow4(v);
    } else {
      b := DenyingRow6(v);
    }
    InTable(b);
  }

  /** The shipped table refuses an IPv4 address exactly when it is in one of these ranges and not one of two. */
  lemma Verdict4(v: nat)
    ensures Blocked(SHIPPED, V4(v)) <==> Refused4(v)
  {
    hide Match, SHIPPED, Refused4, Blocked;
    Deciding(Four, v);
    ClassifyMeaning(SHIPPED, V4(v));
  }

  /** The shipped table refuses an IPv6 address exactly when what it wraps, or its own range, is refused. */
  lemma Verdict6(v: nat)
    ensures Blocked(SHIPPED, V6(v)) <==> Refused6(v)
  {
    hide Match, SHIPPED, Refused4, Blocked, Wide6, Spared6, EmbeddedV4;
    if v <= 1 {
      LowAddresses(v);
      LowIsWide(v);
    } else if Wrapped(v) {
      WrappedVerdict6(v);
    } else {
      Deciding(Six, v);
      ClassifyMeaning(SHIPPED, V6(v));
    }
  }

  lemma LowIsWide(v: nat)
    requires v <= 1
    ensures Wide6(v) && !Spared6(v)
  {
  }

  lemma WrappedVerdict6(v: nat)
    requires v > 1 && Wrapped(v)
    ensures Blocked(SHIPPED, V6(v)) <==> Refused6(v)
  {
    hide SHIPPED, Refused4, Blocked, Wide6, Spared6, EmbeddedV4;
    if In(v, 2, TWO_32 - 1) {
      FormsKeepVerdict(v, 0);
      Verdict4(v);
    } else if In(v, MAPPED.base, MAPPED.base + TWO_32 - 1) {
      FormsKeepVerdict(v - MAPPED.base, 0);
      Verdict4(v - MAPPED.base);
    } else if In(v, NAT64.base, NAT64.base + TWO_32 - 1) {
      FormsKeepVerdict(v - NAT64.base, 0);
      Verdict4(v - NAT64.base);
    } else if In(v, SIX_TO_FOUR.base, SIX_TO_FOUR.base + TWO_112 - 1) {
      SixToFourVerdict(v);
    } else {
      TeredoRelays(v);
    }
  }

  lemma SixToFourVerdict(v: nat)
    requires In(v, SIX_TO_FOUR.base, SIX_TO_FOUR.base + TWO_112 - 1)
    ensures Blocked(SHIPPED, V6(v)) <==> Refused4(v / TWO_80 % TWO_32)
  {
    hide SHIPPED, Refused4, Blocked, EmbeddedV4;
    var carried, low := v / TWO_80 % TWO_32, v % TWO_80;
    assert SixToFourForm(carried, low) == V6(v) by {
      assert SIX_TO_FOUR.base == 0x2002_0000_0000 * TWO_80;
    }
    FormsKeepVerdict(carried, low);
    Verdict4(carried);
  }

  lemma TeredoRelays(v: nat)
    requires In(v, TEREDO.base, TEREDO.base + TWO_96 - 1)
    ensures Blocked(SHIPPED, V6(v))
            <==> Refused4(v / TWO_64 % TWO_32) || Refused4(TWO_32 - 1 - v % TWO_32)
  {
    hide SHIPPED, Refused4, Blocked, EmbeddedV4, TeredoForm;
    var server, middle, client := v / TWO_64 % TWO_32, v / TWO_32 % TWO_32, TWO_32 - 1 - v % TWO_32;
    TeredoParts(v, v / TWO_64, v / TWO_32);
    TeredoVerdict(server, middle, client);
    Verdict4(server);
    Verdict4(client);
  }

  /** A Teredo address is made of its parts; `high` is what stands above its low half, `most` above its low quarter. */
  lemma TeredoParts(v: nat, high: nat, most: nat)
    requires In(v, TEREDO.base, TEREDO.base + TWO_96 - 1) && high == v / TWO_64 && most == v / TWO_32
    ensures TeredoForm(high % TWO_32, most % TWO_32, TWO_32 - 1 - v % TWO_32) == V6(v)
  {
    assert most / TWO_32 == high;
    assert v == most * TWO_32 + v % TWO_32 && most == high * TWO_32 + most % TWO_32;
    assert high - high % TWO_32 == 0x2001_0000 * TWO_32;
  }

  const LOOPBACK := V4(0x7F00_0001) // 127.0.0.1
  const PUBLIC := V4(0x0808_0808) // 8.8.8.8

  /** Loopback is refused and a public address is not. */
  lemma LoopbackAndPublic()
    ensures Blocked(SHIPPED, LOOPBACK) && !Blocked(SHIPPED, PUBLIC)
  {
    hide Blocked, SHIPPED;
    Verdict4(LOOPBACK.value);
    Verdict4(PUBLIC.value);
  }
}

/** What a policy allows by address, and the allowlist entries it refuses to be built with. */
module Policies {
  import opened Wire
  import opened Networks
  import opened AddressTable
  import opened Registry
  import opened Verdicts

  datatype PartialBlock = Reject | Drop

  datatype Policy = Policy(
    denied: seq<Block>, allowed: seq<Network>, ports: set<int>, hosts: set<string>,
    onPartialBlock: PartialBlock, maxRedirects: nat, maxConnectionAttempts: nat)

  /** An allowlist entry a translated block would have decided as a whole. */
  predicate Rejected(blocks: seq<Block>, n: Network) {
    var b := DecidingBlock(blocks, n);
    b.Some? && b.value.reach.Translated?
  }

  /** The policies that survive construction. */
  predicate Constructed(p: Policy) {
    && ValidBlocks(p.denied)
    && (forall n :: n in p.allowed ==> ValidNetwork(n) && !Rejected(p.denied, n))
    && p.ports != {} && (forall port :: port in p.ports ==> 1 <= port <= 65535)
    && p.maxConnectionAttempts >= 1
  }

  method RejectAllowingATranslationPrefix(blocks: seq<Block>, allowed: seq<Network>) returns (refused: Option<Network>)
    ensures refused.None? <==> forall n :: n in allowed ==> !Rejected(blocks, n)
    ensures refused.Some? ==> refused.value in allowed && Rejected(blocks, refused.value)
  {
    hide Rejected;
    for i := 0 to |allowed|
      invariant forall k :: 0 <= k < i ==> !Rejected(blocks, allowed[k])
    {
      if Rejected(blocks, allowed[i]) {
        return Some(allowed[i]);
      }
    }
    return None;
  }

  /** `check_address` returns rather than raises: an explicit allow beats the table. */
  predicate Permits(p: Policy, a: Address) {
    (exists i :: 0 <= i < |p.allowed| && Contains(p.allowed[i], a)) || !Blocked(TableOf(p.denied), a)
  }

  method CheckAddress(p: Policy, a: Address) returns (permitted: bool)
    ensures permitted == Permits(p, a)
  {
    for i := 0 to |p.allowed|
      invariant forall k :: 0 <= k < i ==> !Contains(p.allowed[k], a)
    {
      if p.allowed[i].version == a.Version() && Contains(p.allowed[i], a) {
        return true;
      }
    }
    return !Classify(TableOf(p.denied), a).blocked;
  }

  /** Some allowed entry spans the address. */
  predicate AllowedByEntry(p: Policy, a: Address) {
    exists n :: n in p.allowed && n.version == a.Version() && n.base <= a.value < n.base + Size(n)
  }

  /** The longest row over an IPv4 address does not permit it. */
  ghost predicate DeniedV4(blocks: seq<Block>, a: Address) {
    exists b :: Decides(blocks, a, b) && !b.reach.Permitted?
  }

  /** The longest row over an address denies it, or is a wrapper whose payload cannot be read or is denied. */
  ghost predicate DeniedByRow(blocks: seq<Block>, a: Address) {
    exists b :: Decides(blocks, a, b) &&
      match b.reach
      case Permitted => false
      case Denied => true
      case Translated =>
        || a.V4? || EmbeddedV4(a, b.network) == []
        || exists i :: 0 <= i < |EmbeddedV4(a, b.network)| && DeniedV4(blocks, EmbeddedV4(a, b.network)[i])
  }

  lemma RowVerdictV4(blocks: seq<Block>, a: Address)
    requires ValidBlocks(blocks) && a.V4?
    ensures Blocked(TableOf(blocks), a) <==> DeniedV4(blocks, a)
  {
    hide Match, TableOf, ValidNetwork, Contains;
    MatchMeaning(blocks, a);
    ClassifyMeaning(TableOf(blocks), a);
    var found := Match(TableOf(blocks), a);
    if found.Some? {
      assert Decides(blocks, a, found.value);
    }
  }

  lemma RowVerdict(blocks: seq<Block>, a: Address)
    requires ValidBlocks(blocks)
    ensures Blocked(TableOf(blocks), a) <==> DeniedByRow(blocks, a)
  {
    hide Match, TableOf, ValidNetwork, Contains, Blocked, DeniedV4, EmbeddedV4, Decides;
    MatchMeaning(blocks, a);
    ClassifyMeaning(TableOf(blocks), a);
    var found := Match(TableOf(blocks), a);
    if found.Some? {
      var inner := EmbeddedV4(a, found.value.network);
      forall i | 0 <= i < |inner|
        ensures Blocked(TableOf(blocks), inner[i]) <==> DeniedV4(blocks, inner[i])
      {
        RowVerdictV4(blocks, inner[i]);
      }
      assert Decides(blocks, a, found.value);
    }
  }

  /** The verdict on an address, by ranges and rows: an entry that spans it permits it, whatever row denies it
      inside that entry; otherwise the longest row over it decides. */
  lemma PermitsMeaning(p: Policy, a: Address)
    requires Constructed(p)
    ensures Permits(p, a) <==> AllowedByEntry(p, a) || !DeniedByRow(p.denied, a)
  {
    hide Blocked, DeniedByRow, TableOf, ValidBlocks, ValidNetwork, Contains, Rejected;
    RowVerdict(p.denied, a);
    forall i | 0 <= i < |p.allowed|
      ensures Contains(p.allowed[i], a)
              <==> p.allowed[i].version == a.Version()
                   && p.allowed[i].base <= a.value < p.allowed[i].base + Size(p.allowed[i])
    {
      assert p.allowed[i] in p.allowed;
      ContainsInterval(p.allowed[i], a);
    }
  }

  /** Under the shipped table the rows are the ranges of `Verdicts`. */
  lemma ShippedPermits(p: Policy, a: Address)
    requires Constructed(p) && p.denied == TABLE
    ensures Permits(p, a) <==> AllowedByEntry(p, a) || !(if a.V4? then Refused4(a.value) else Refused6(a.value))
  {
    hide Permits, Blocked, DeniedByRow, TABLE, Refused4, Refused6, Constructed;
    PermitsMeaning(p, a);
    ConstructedBlocks(p);
    RowVerdict(p.denied, a);
    Verdict4(a.value);
    Verdict6(a.value);
  }

  lemma ConstructedBlocks(p: Policy)
    requires Constructed(p)
    ensures ValidBlocks(p.denied)
  {
  }

  /** With the shipped table and no allowlist, 8.8.8.8 is permitted and 127.0.0.1 is not. */
  lemma ShippedVerdicts(p: Policy)
    requires p.denied == TABLE && p.allowed == []
    ensures Permits(p, PUBLIC) && !Permits(p, LOOPBACK)
  {
    hide Blocked, TABLE;
    LoopbackAndPublic();
  }

  /** Two networks that share an address are nested one way or the other. */
  lemma EitherNested(n: Network, m: Network, a: Address)
    requires ValidNetwork(n) && ValidNetwork(m) && Contains(n, a) && Contains(m, a)
    ensures Inside(n, m) || Inside(m, n)
  {
    if n.prefixLen <= m.prefixLen {
      Nested(m, n, a);
    } else {
      Nested(n, m, a);
    }
  }

  /** The block that decides one address of a network it contains decides the whole network. */
  lemma DeciderOfWhole(blocks: seq<Block>, n: Network, a: Address, b: Block)
    requires ValidBlocks(blocks) && ValidNetwork(n) && Contains(n, a)
    requires Decides(blocks, a, b) && Inside(n, b.network)
    ensures DecidingBlock(blocks, n) == Some(b)
  {
    hide DecidingBlock, Contains, ValidNetwork, Inside;
    var c := DecidingBlock(blocks, n).value;
    InsideContains(n, c.network, a);
    assert Decides(blocks, a, c);
    DeciderUnique(blocks, a, b, c);
  }

  /** Under every policy that survives construction, an allowed address whose longest match is a
      translated block has that block strictly inside the entry that allows it: no entry inside a
      translation prefix lets undecoded addresses through. */
  lemma AllowedWrapperIsInside(p: Policy, n: Network, a: Address, b: Block)
    requires Constructed(p) && n in p.allowed && Contains(n, a)
    requires Match(TableOf(p.denied), a) == Some(b) && b.reach.Translated?
    ensures Inside(b.network, n) && b.network != n
  {
    hide Match, TableOf, Contains, ValidNetwork, DecidingBlock;
    MatchMeaning(p.denied, a);
    assert Decides(p.denied, a, b);
    EitherNested(n, b.network, a);
    if Inside(n, b.network) {
      DeciderOfWhole(p.denied, n, a, b);
    }
  }

  // ---------- exactly when the construction check is right ----------

  /** A row strictly inside the entry decides this address before anything as wide as the entry can. */
  ghost predicate CoveredInside(blocks: seq<Block>, n: Network, a: Address) {
    exists c :: c in blocks && Contains(c.network, a) && Inside(c.network, n) && c.network != n
  }

  /** Some address of the entry is covered by no row strictly inside it. */
  ghost predicate LeavesSomeUncovered(blocks: seq<Block>, n: Network) {
    exists a :: Contains(n, a) && !CoveredInside(blocks, n, a)
  }

  /** What the check is for: allowing the entry would pass an address that a translated row, not strictly
      inside the entry, would have decoded. */
  ghost predicate PassesUndecoded(blocks: seq<Block>, n: Network) {
    exists a :: Contains(n, a) && UndecodedAt(blocks, n, a)
  }

  ghost predicate UndecodedAt(blocks: seq<Block>, n: Network, a: Address) {
    var found := Match(TableOf(blocks), a);
    found.Some? && found.value.reach.Translated? && !(Inside(found.value.network, n) && found.value.network != n)
  }

  /** For an address that no row strictly inside the entry covers, the entry is refused if and only if a
      translated row decides that address. */
  lemma RejectionIsExact(blocks: seq<Block>, n: Network, a: Address)
    requires ValidBlocks(blocks) && ValidNetwork(n) && Contains(n, a)
    requires !CoveredInside(blocks, n, a)
    ensures Rejected(blocks, n) <==>
            Match(TableOf(blocks), a).Some? && Match(TableOf(blocks), a).value.reach.Translated?
  {
    hide Match, TableOf, Contains, ValidNetwork, DecidingBlock;
    MatchMeaning(blocks, a);
    var found := Match(TableOf(blocks), a);
    if found.Some? {
      assert Decides(blocks, a, found.value);
      EitherNested(n, found.value.network, a);
      DeciderOfWhole(blocks, n, a, found.value);
    } else if DecidingBlock(blocks, n).Some? {
      InsideContains(n, DecidingBlock(blocks, n).value.network, a);
    }
  }

  /** An address covered strictly inside the entry is decided strictly inside it. */
  lemma CoveredIsDecidedInside(blocks: seq<Block>, n: Network, a: Address)
    requires ValidBlocks(blocks) && ValidNetwork(n) && Contains(n, a) && CoveredInside(blocks, n, a)
    ensures var found := Match(TableOf(blocks), a);
            found.Some? && Inside(found.value.network, n) && found.value.network != n
  {
    hide Match, TableOf, Contains, ValidNetwork;
    MatchMeaning(blocks, a);
    var c :| c in blocks && Contains(c.network, a) && Inside(c.network, n) && c.network != n;
    var found := Match(TableOf(blocks), a);
    assert Decides(blocks, a, found.value);
    InsideIsLonger(c.network, n);
    Nested(found.value.network, n, a);
  }

  /** Exactly when refusing is right: construction refuses an entry, and some address of it is covered by no
      row strictly inside it, if and only if allowing it would pass an address undecoded. An entry refused
      although rows strictly inside it cover every address is refused for nothing. */
  lemma RefusalIsRight(blocks: seq<Block>, n: Network)
    requires ValidBlocks(blocks) && ValidNetwork(n)
    ensures Rejected(blocks, n) && LeavesSomeUncovered(blocks, n) <==> PassesUndecoded(blocks, n)
  {
    hide Rejected, Match, TableOf, Contains, ValidNetwork, CoveredInside;
    forall a | Contains(n, a)
      ensures UndecodedAt(blocks, n, a) ==> Rejected(blocks, n) && !CoveredInside(blocks, n, a)
      ensures Rejected(blocks, n) && !CoveredInside(blocks, n, a) ==> UndecodedAt(blocks, n, a)
    {
      if CoveredInside(blocks, n, a) {
        CoveredIsDecidedInside(blocks, n, a);
      } else {
        RejectionIsExact(blocks, n, a);
        if Match(TableOf(blocks), a).Some? {
          UncoveredIsDecidedOutside(blocks, n, a);
        }
      }
    }
  }

  lemma UncoveredIsDecidedOutside(blocks: seq<Block>, n: Network, a: Address)
    requires ValidBlocks(blocks) && Contains(n, a) && !CoveredInside(blocks, n, a) && Match(TableOf(blocks), a).Some?
    ensures var m := Match(TableOf(blocks), a).value.network; !(Inside(m, n) && m != n)
  {
    hide Match, TableOf, Contains, ValidNetwork;
    MatchMeaning(blocks, a);
    assert Decides(blocks, a, Match(TableOf(blocks), a).value);
  }

  /** The over-refused entries, by their rows: when those strictly inside an entry cover every address of it
      and none of them is translated, no address of it would ever be decoded, refused or not. */
  lemma NothingToDecode(blocks: seq<Block>, n: Network, a: Address)
    requires ValidBlocks(blocks) && ValidNetwork(n) && !LeavesSomeUncovered(blocks, n) && Contains(n, a)
    requires forall c :: c in blocks && Inside(c.network, n) && c.network != n ==> !c.reach.Translated?
    ensures Match(TableOf(blocks), a).Some? && !Match(TableOf(blocks), a).value.reach.Translated?
  {
    hide Match, TableOf, Contains, ValidNetwork, CoveredInside;
    CoveredIsDecidedInside(blocks, n, a);
    MatchMeaning(blocks, a);
    assert Decides(blocks, a, Match(TableOf(blocks), a).value);
  }

  /** The check over-refuses: ::/127 is refused under the shipped table, yet rows of their own decide
      both its addresses, strictly inside it, so allowing it would pass nothing undecoded. */
  lemma OverRejection(a: Address)
    requires Contains(Network(Six, 0, 127), a)
    ensures ValidNetwork(Network(Six, 0, 127)) && Rejected(TABLE, Network(Six, 0, 127))
    ensures Match(SHIPPED, a).Some? && Match(SHIPPED, a).value.reach.Denied?
    ensures CoveredInside(TABLE, Network(Six, 0, 127), a)
  {
    hide Match, SHIPPED, TABLE, DecidingBlock, NoRowInsideWrapper, IANA_V4, IANA_V6, EXTRA, METADATA;
    var n := Network(Six, 0, 127);
    PairNetwork(a);
    LowRowsInTable();
    HostNetwork(Network(Six, a.value, 128));
    HostDecides(Block(Network(Six, a.value, 128), Denied), a);
    Wrappers();
    WrapperSizes();
    TableIsValid();
    assert Inside(n, COMPATIBLE);
    var e := DecidingBlock(TABLE, n).value;
    var i :| 0 <= i < |TABLE| && TABLE[i] == e;
    RowFacts(i);
    AroundPair(e.network);
    DistinctBlocks(TABLE, e, Block(COMPATIBLE, Translated));
    HostInside(a.value);
    assert Block(Network(Six, a.value, 128), Denied) in TABLE;
  }

  lemma PairNetwork(a: Address)
    requires Contains(Network(Six, 0, 127), a)
    ensures ValidNetwork(Network(Six, 0, 127)) && Size(Network(Six, 0, 127)) == 2 && a.V6? && a.value <= 1
  {
    LargePowers();
    assert Pow2(1) == 2;
    hide Pow2;
    ContainsInterval(Network(Six, 0, 127), a);
  }

  lemma HostInside(v: nat)
    requires v <= 1 && Size(Network(Six, 0, 127)) == 2
    ensures Inside(Network(Six, v, 128), Network(Six, 0, 127))
  {
    HostSize(Network(Six, v, 128));
  }

  lemma AroundPair(m: Network)
    requires ValidNetwork(m) && NoRowInsideWrapper(m) && Inside(Network(Six, 0, 127), m)
    requires Size(Network(Six, 0, 127)) == 2 && 96 <= m.prefixLen
    ensures m == COMPATIBLE
  {
    if m.prefixLen == 128 {
      HostSize(m);
    }
  }
}

/** Longest-prefix classification of addresses, with the IPv4 payload of translation prefixes decoded. */
module AddressTable {
  import opened Wire
  import opened Networks

  datatype Reach = Denied | Permitted | Translated

  datatype Block = Block(network: Network, reach: Reach)

  /** The blocks, and the index lookups read: each family longest prefix first. */
  datatype Table = Table(blocks: seq<Block>, index4: seq<Block>, index6: seq<Block>)

  datatype Verdict = Verdict(address: Address, blocked: bool, block: Option<Block>, chain: seq<(Block, Address)>)

  const MAX_TRANSLATION_DEPTH := 2

  const MAPPED := Network(Six, 0xFFFF_0000_0000, 96)
  const COMPATIBLE := Network(Six, 0, 96)
  const NAT64 := Network(Six, 0x0064_FF9B_0000_0000_0000_0000_0000_0000, 96)
  const SIX_TO_FOUR := Network(Six, 0x2002_0000_0000_0000_0000_0000_0000_0000, 16)
  const TEREDO := Network(Six, 0x2001_0000_0000_0000_0000_0000_0000_0000, 32)

  const TWO_32: int := 0x1_0000_0000
  const TWO_64: int := 0x1_0000_0000_0000_0000
  const TWO_80: int := 0x1_0000_0000_0000_0000_0000

  // ---------- building the index ----------

  /** What the constructor accepts: networks without host bits, no two alike. */
  predicate ValidBlocks(blocks: seq<Block>) {
    && (forall b :: b in blocks ==> ValidNetwork(b.network))
    && NoDuplicates(blocks)
  }

  predicate NoDuplicates(blocks: seq<Block>) {
    forall i, j :: 0 <= i < j < |blocks| ==> blocks[i].network != blocks[j].network
  }

  function OfVersion(blocks: seq<Block>, v: Version): (out: seq<Block>)
    ensures forall b :: b in out <==> b in blocks && b.network.version == v
  {
    if blocks == [] then []
    else
      var front := OfVersion(blocks[..|blocks| - 1], v);
      var last := blocks[|blocks| - 1];
      assert blocks == blocks[..|blocks| - 1] + [last];
      if last.network.version == v then front + [last] else front
  }

  predicate LongestFirst(blocks: seq<Block>) {
    forall i, j :: 0 <= i < j < |blocks| ==> blocks[i].network.prefixLen >= blocks[j].network.prefixLen
  }

  /** Where a stable descending sort puts one more block: behind every prefix at least as long. */
  function Insert(sorted: seq<Block>, b: Block): (out: seq<Block>)
    ensures forall c :: c in out <==> c in sorted || c == b
  {
    if sorted == [] || sorted[0].network.prefixLen < b.network.prefixLen then [b] + sorted
    else
      assert sorted == [sorted[0]] + sorted[1..];
      [sorted[0]] + Insert(sorted[1..], b)
  }

  /** `sorted(blocks, key=prefixlen, reverse=True)` */
  function Sort(blocks: seq<Block>): (out: seq<Block>)
    ensures forall b :: b in out <==> b in blocks
  {
    if blocks == [] then []
    else
      assert blocks == blocks[..|blocks| - 1] + [blocks[|blocks| - 1]];
      Insert(Sort(blocks[..|blocks| - 1]), blocks[|blocks| - 1])
  }

  lemma {:induction false} InsertKeepsOrder(sorted: seq<Block>, b: Block)
    requires LongestFirst(sorted)
    ensures LongestFirst(Insert(sorted, b))
  {
    if sorted != [] && sorted[0].network.prefixLen >= b.network.prefixLen {
      var rest := Insert(sorted[1..], b);
      InsertKeepsOrder(sorted[1..], b);
      forall i | 0 <= i < |rest|
        ensures sorted[0].network.prefixLen >= rest[i].network.prefixLen
      {
        assert rest[i] in rest;
      }
    }
  }

  /** The index is longest prefix first. */
  lemma {:induction false} SortOrders(blocks: seq<Block>)
    ensures LongestFirst(Sort(blocks))
  {
    if blocks != [] {
      SortOrders(blocks[..|blocks| - 1]);
      InsertKeepsOrder(Sort(blocks[..|blocks| - 1]), blocks[|blocks| - 1]);
    }
  }

  function TableOf(blocks: seq<Block>): (t: Table) {
    Table(blocks, Sort(OfVersion(blocks, Four)), Sort(OfVersion(blocks, Six)))
  }

  /** Construction refuses exactly the duplicated networks. */
  method BuildTable(blocks: seq<Block>) returns (t: Option<Table>)
    ensures t == if NoDuplicates(blocks) then Some(TableOf(blocks)) else None
  {
    var seen: set<Network> := {};
    var duplicates: seq<Network> := [];
    for i := 0 to |blocks|
      invariant forall n :: n in seen <==> exists j :: 0 <= j < i && blocks[j].network == n
      invariant duplicates == [] <==> NoDuplicates(blocks[..i])
    {
      var network := blocks[i].network;
      if network in seen {
        var j :| 0 <= j < i && blocks[j].network == network;
        assert blocks[..i + 1][j].network == blocks[..i + 1][i].network;
        duplicates := duplicates + [network];
      } else {
        DistinctSoFar(blocks, i);
      }
      if duplicates != [] && NoDuplicates(blocks[..i + 1]) {
        assert NoDuplicates(blocks[..i + 1][..i]);
        assert blocks[..i + 1][..i] == blocks[..i];
      }
      seen := seen + {network};
    }
    assert blocks[..|blocks|] == blocks;
    t := if duplicates != [] then None else Some(TableOf(blocks));
  }

  lemma DistinctSoFar(blocks: seq<Block>, i: nat)
    requires i < |blocks| && forall j :: 0 <= j < i ==> blocks[j].network != blocks[i].network
    ensures NoDuplicates(blocks[..i]) ==> NoDuplicates(blocks[..i + 1])
  {
    if NoDuplicates(blocks[..i]) {
      assert blocks[..i + 1] == blocks[..i] + [blocks[i]];
    }
  }

  // ---------- matching ----------

  function FirstContaining(blocks: seq<Block>, a: Address): (b: Option<Block>)
  {
    if blocks == [] then None
    else if Contains(blocks[0].network, a) then Some(blocks[0])
    else FirstContaining(blocks[1..], a)
  }

  function Match(t: Table, a: Address): (b: Option<Block>) {
    FirstContaining(if a.V4? then t.index4 else t.index6, a)
  }

  /** `b` is a longest-prefix block containing the address. */
  ghost predicate Decides(blocks: seq<Block>, a: Address, b: Block) {
    && b in blocks && Contains(b.network, a)
    && forall c :: c in blocks && Contains(c.network, a) ==> c.network.prefixLen <= b.network.prefixLen
  }

  lemma {:induction false} FirstIsLongest(sorted: seq<Block>, a: Address)
    requires LongestFirst(sorted)
    ensures FirstContaining(sorted, a).Some? ==> Decides(sorted, a, FirstContaining(sorted, a).value)
    ensures FirstContaining(sorted, a).None? ==> forall c :: c in sorted ==> !Contains(c.network, a)
  {
    if sorted != [] {
      assert sorted == [sorted[0]] + sorted[1..];
      FirstIsLongest(sorted[1..], a);
    }
  }

  lemma DistinctBlocks(blocks: seq<Block>, b: Block, c: Block)
    requires NoDuplicates(blocks) && b in blocks && c in blocks && b.network == c.network
    ensures b == c
  {
    var i :| 0 <= i < |blocks| && blocks[i] == b;
    var j :| 0 <= j < |blocks| && blocks[j] == c;
  }

  /** At most one block decides an address: two of the same length sharing it are one network. */
  lemma DeciderUnique(blocks: seq<Block>, a: Address, b: Block, c: Block)
    requires ValidBlocks(blocks) && Decides(blocks, a, b) && Decides(blocks, a, c)
    ensures b == c
  {
    Nested(b.network, c.network, a);
    DistinctBlocks(blocks, b, c);
  }

  /** A lookup returns the one block that decides the address, or nothing when none contains it. */
  lemma MatchMeaning(blocks: seq<Block>, a: Address)
    requires ValidBlocks(blocks)
    ensures forall b :: Match(TableOf(blocks), a) == Some(b) <==> Decides(blocks, a, b)
    ensures Match(TableOf(blocks), a) == None <==> forall b :: b in blocks ==> !Contains(b.network, a)
  {
    hide Sort, OfVersion, FirstContaining;
    var v := a.Version();
    var index := Sort(OfVersion(blocks, v));
    SortOrders(OfVersion(blocks, v));
    FirstIsLongest(index, a);
    var found := FirstContaining(index, a);
    if found.Some? {
      assert Decides(blocks, a, found.value);
      forall b | Decides(blocks, a, b)
        ensures b == found.value
      {
        DeciderUnique(blocks, a, b, found.value);
      }
    }
  }

  // ---------- classifying ----------

  /** The IPv4 addresses a translation prefix carries; empty when the payload cannot be read. */
  function EmbeddedV4(a: Address, network: Network): (inner: seq<Address>)
    ensures |inner| <= 2 && forall i :: 0 <= i < |inner| ==> inner[i].V4? && inner[i].value < TWO_32
  {
    if network == MAPPED || network == COMPATIBLE || network == NAT64 then [V4(a.value % TWO_32)]
    else if network == SIX_TO_FOUR then [V4(a.value / TWO_80 % TWO_32)]
    else if network == TEREDO then [V4(a.value / TWO_64 % TWO_32), V4(TWO_32 - 1 - a.value % TWO_32)]
    else []
  }

  function ClassifyFrom(t: Table, a: Address, chain: seq<(Block, Address)>): (v: Verdict)
    decreases if a.V6? then 2 else 0, 0
  {
    match Match(t, a)
    case None => Verdict(a, false, None, chain)
    case Some(b) =>
      if b.reach.Permitted? then Verdict(a, false, Some(b), chain)
      else if b.reach.Denied? then Verdict(a, true, Some(b), chain)
      else if |chain| >= MAX_TRANSLATION_DEPTH || a.V4? then Verdict(a, true, Some(b), chain)
      else if EmbeddedV4(a, b.network) == [] then Verdict(a, true, Some(b), chain)
      else
        match FirstRefusal(t, b, EmbeddedV4(a, b.network), chain)
        case None => Verdict(a, false, Some(b), chain)
        case Some(refused) => Verdict(a, true, refused.block, refused.chain)
  }

  /** The verdict on the first carried address that is refused, if any is. */
  function FirstRefusal(t: Table, b: Block, inner: seq<Address>, chain: seq<(Block, Address)>): (v: Option<Verdict>)
    requires forall i :: 0 <= i < |inner| ==> inner[i].V4?
    ensures v.Some? ==> v.value.blocked
    decreases 1, |inner|
  {
    if inner == [] then None
    else
      var v := ClassifyFrom(t, inner[0], chain + [(b, inner[0])]);
      if v.blocked then Some(v) else FirstRefusal(t, b, inner[1..], chain)
  }

  function Classify(t: Table, a: Address): (v: Verdict) {
    ClassifyFrom(t, a, [])
  }

  predicate Blocked(t: Table, a: Address) {
    Classify(t, a).blocked
  }

  /** For an IPv4 address the hops already walked do not matter: a translated row refuses it. */
  lemma V4Verdict(t: Table, a: Address, chain: seq<(Block, Address)>)
    requires a.V4?
    ensures ClassifyFrom(t, a, chain) ==
            Verdict(a, Match(t, a).Some? && !Match(t, a).value.reach.Permitted?, Match(t, a), chain)
  {
  }

  lemma {:induction false} RefusalMeaning(t: Table, b: Block, inner: seq<Address>, chain: seq<(Block, Address)>)
    requires forall i :: 0 <= i < |inner| ==> inner[i].V4?
    ensures FirstRefusal(t, b, inner, chain).Some? <==> exists i :: 0 <= i < |inner| && Blocked(t, inner[i])
    ensures FirstRefusal(t, b, inner, chain).Some? ==> |FirstRefusal(t, b, inner, chain).value.chain| == |chain| + 1
    decreases |inner|
  {
    hide Match;
    if inner != [] {
      V4Verdict(t, inner[0], chain + [(b, inner[0])]);
      V4Verdict(t, inner[0], []);
      RefusalMeaning(t, b, inner[1..], chain);
      assert inner == [inner[0]] + inner[1..];
      if exists i :: 0 <= i < |inner[1..]| && Blocked(t, inner[1..][i]) {
        var i :| 0 <= i < |inner[1..]| && Blocked(t, inner[1..][i]);
        assert Blocked(t, inner[i + 1]);
      }
    }
  }

  /** What a verdict says, for any table at all: a denied row refuses, a permitted row or no row
      allows, and a translated row refuses an address exactly when it cannot be decoded or carries a
      refused address. No chain is longer than one hop. */
  lemma ClassifyMeaning(t: Table, a: Address)
    ensures Blocked(t, a) <==>
            match Match(t, a)
            case None => false
            case Some(b) =>
              match b.reach
              case Denied => true
              case Permitted => false
              case Translated =>
                a.V4? || EmbeddedV4(a, b.network) == []
                || exists i :: 0 <= i < |EmbeddedV4(a, b.network)| && Blocked(t, EmbeddedV4(a, b.network)[i])
    ensures |Classify(t, a).chain| <= 1
    ensures Classify(t, a).address == a
    ensures Classify(t, a).blocked ==> Classify(t, a).block.Some?
  {
    hide Match, EmbeddedV4;
    var found := Match(t, a);
    if found.Some? && found.value.reach.Translated? && a.V6? {
      RefusalMeaning(t, found.value, EmbeddedV4(a, found.value.network), []);
      if FirstRefusal(t, found.value, EmbeddedV4(a, found.value.network), []).Some? {
        RefusalHasBlock(t, found.value, EmbeddedV4(a, found.value.network), []);
      }
    }
  }

  lemma {:induction false} RefusalHasBlock(t: Table, b: Block, inner: seq<Address>, chain: seq<(Block, Address)>)
    requires forall i :: 0 <= i < |inner| ==> inner[i].V4?
    requires FirstRefusal(t, b, inner, chain).Some?
    ensures FirstRefusal(t, b, inner, chain).value.block.Some?
    decreases |inner|
  {
    hide Match;
    V4Verdict(t, inner[0], chain + [(b, inner[0])]);
    if !ClassifyFrom(t, inner[0], chain + [(b, inner[0])]).blocked {
      RefusalHasBlock(t, b, inner[1..], chain);
    }
  }

  /** A refusal through a translated row names the first carried address that is refused: the one hop of
      the chain leads to it, and the deciding block is the one it matched. */
  lemma {:induction false} RefusalNamesTheFirst(t: Table, b: Block, inner: seq<Address>, chain: seq<(Block, Address)>)
    returns (i: nat)
    requires forall k :: 0 <= k < |inner| ==> inner[k].V4?
    requires FirstRefusal(t, b, inner, chain).Some?
    ensures i < |inner| && Blocked(t, inner[i]) && forall k :: 0 <= k < i ==> !Blocked(t, inner[k])
    ensures FirstRefusal(t, b, inner, chain)
         == Some(Verdict(inner[i], true, Match(t, inner[i]), chain + [(b, inner[i])]))
    decreases |inner|
  {
    hide Match;
    V4Verdict(t, inner[0], chain + [(b, inner[0])]);
    V4Verdict(t, inner[0], []);
    if Blocked(t, inner[0]) {
      i := 0;
    } else {
      i := RefusalNamesTheFirst(t, b, inner[1..], chain);
      i := i + 1;
    }
  }

  /** What a refusal reports: the address's own row, or one hop and the row that refused what is carried. */
  lemma VerdictNamesTheDecider(t: Table, a: Address)
    requires Blocked(t, a)
    ensures var v := Classify(t, a);
            || (v.chain == [] && v.block == Match(t, a))
            || exists i :: 0 <= i < |EmbeddedV4(a, Match(t, a).value.network)|
                 && var x := EmbeddedV4(a, Match(t, a).value.network)[i];
                    v.chain == [(Match(t, a).value, x)] && v.block == Match(t, x) && Blocked(t, x)
  {
    hide Match, EmbeddedV4;
    var b := Match(t, a).value;
    if b.reach.Translated? && a.V6? && EmbeddedV4(a, b.network) != [] {
      var i := RefusalNamesTheFirst(t, b, EmbeddedV4(a, b.network), []);
      assert [] + [(b, EmbeddedV4(a, b.network)[i])] == [(b, EmbeddedV4(a, b.network)[i])];
    }
  }

  // ---------- tables with the same matches ----------

  /** The order of the blocks is no part of a table's meaning. */
  lemma OrderIsIrrelevant(blocks: seq<Block>, others: seq<Block>, a: Address)
    requires ValidBlocks(blocks) && ValidBlocks(others) && forall b :: b in blocks <==> b in others
    ensures Match(TableOf(blocks), a) == Match(TableOf(others), a)
    ensures Classify(TableOf(blocks), a) == Classify(TableOf(others), a)
  {
    forall x: Address
      ensures Match(TableOf(blocks), x) == Match(TableOf(others), x)
    {
      SameMatch(blocks, others, x);
    }
    SameMatchesSameVerdicts(TableOf(blocks), TableOf(others), a, []);
  }

  lemma SameMatch(blocks: seq<Block>, others: seq<Block>, a: Address)
    requires ValidBlocks(blocks) && ValidBlocks(others) && forall b :: b in blocks <==> b in others
    ensures Match(TableOf(blocks), a) == Match(TableOf(others), a)
  {
    hide Match, TableOf;
    MatchMeaning(blocks, a);
    MatchMeaning(others, a);
    var found := Match(TableOf(blocks), a);
    if found.Some? {
      assert Decides(blocks, a, found.value);
      assert Decides(others, a, found.value);
    }
  }

  lemma SameMatchesSameVerdicts(t: Table, u: Table, a: Address, chain: seq<(Block, Address)>)
    requires forall x :: Match(t, x) == Match(u, x)
    ensures ClassifyFrom(t, a, chain) == ClassifyFrom(u, a, chain)
  {
    hide Match, EmbeddedV4;
    assert Match(t, a) == Match(u, a);
    if a.V6? && Match(t, a).Some? {
      var b := Match(t, a).value;
      SameRefusals(t, u, b, EmbeddedV4(a, b.network), chain);
    }
  }

  lemma {:induction false} SameRefusals(t: Table, u: Table, b: Block, inner: seq<Address>, chain: seq<(Block, Address)>)
    requires forall x :: Match(t, x) == Match(u, x)
    requires forall i :: 0 <= i < |inner| ==> inner[i].V4?
    ensures FirstRefusal(t, b, inner, chain) == FirstRefusal(u, b, inner, chain)
    decreases |inner|
  {
    hide Match;
    if inner != [] {
      V4Verdict(t, inner[0], chain + [(b, inner[0])]);
      V4Verdict(u, inner[0], chain + [(b, inner[0])]);
      assert Match(t, inner[0]) == Match(u, inner[0]);
      SameRefusals(t, u, b, inner[1..], chain);
    }
  }

  // ---------- the block that decides a whole network ----------

  /** `_deciding_block`: the longest-prefix block containing every address of a network. */
  function DecidingBlock(blocks: seq<Block>, n: Network): (b: Option<Block>)
    ensures b.Some? ==> b.value in blocks && Inside(n, b.value.network)
    ensures b.Some? ==>
              forall c :: c in blocks && Inside(n, c.network) ==> c.network.prefixLen <= b.value.network.prefixLen
    ensures b.None? ==> forall c :: c in blocks ==> !Inside(n, c.network)
  {
    if blocks == [] then None
    else
      var rest := DecidingBlock(blocks[1..], n);
      assert blocks == [blocks[0]] + blocks[1..];
      if !Inside(n, blocks[0].network) then rest
      else if rest.Some? && rest.value.network.prefixLen > blocks[0].network.prefixLen then rest
      else Some(blocks[0])
  }

  // ---------- redundant rows ----------

  /** `kept` is `all` without some denied rows, each still covered by a kept row that denies it. */
  ghost predicate OnlyRedundantDropped(all: seq<Block>, kept: seq<Block>) {
    && (forall b :: b in kept ==> b in all)
    && forall d :: d in all && d !in kept ==>
         && d.reach.Denied?
         && DecidingBlock(kept, d.network).Some?
         && DecidingBlock(kept, d.network).value.reach.Denied?
  }

  /** An address decided by a dropped row is decided by the row that covered it. */
  lemma DroppedRow(all: seq<Block>, kept: seq<Block>, a: Address, d: Block)
    requires ValidBlocks(all) && ValidBlocks(kept) && OnlyRedundantDropped(all, kept)
    requires Decides(all, a, d) && d !in kept
    ensures Match(TableOf(kept), a) == DecidingBlock(kept, d.network)
  {
    hide Match, TableOf;
    var e := DecidingBlock(kept, d.network).value;
    InsideContains(d.network, e.network, a);
    forall c | c in kept && Contains(c.network, a)
      ensures c.network.prefixLen <= e.network.prefixLen
    {
      Nested(d.network, c.network, a);
    }
    assert Decides(kept, a, e);
    MatchMeaning(kept, a);
  }

  lemma KeptRow(all: seq<Block>, kept: seq<Block>, a: Address)
    requires ValidBlocks(all) && ValidBlocks(kept) && OnlyRedundantDropped(all, kept)
    requires Match(TableOf(all), a).Some? ==> Match(TableOf(all), a).value in kept
    ensures Match(TableOf(kept), a) == Match(TableOf(all), a)
  {
    hide Match, TableOf;
    MatchMeaning(all, a);
    MatchMeaning(kept, a);
    var found := Match(TableOf(all), a);
    if found.Some? {
      assert Decides(all, a, found.value);
      assert Decides(kept, a, found.value);
    }
  }

  /** Both tables decide an address by rows of the same reach, and by the same row unless it denies. */
  lemma RedundantMatch(all: seq<Block>, kept: seq<Block>, a: Address)
    requires ValidBlocks(all) && ValidBlocks(kept) && OnlyRedundantDropped(all, kept)
    ensures var m, k := Match(TableOf(all), a), Match(TableOf(kept), a);
            m == k || (m.Some? && k.Some? && m.value.reach.Denied? && k.value.reach.Denied?)
  {
    hide Match, TableOf, Decides;
    MatchMeaning(all, a);
    var found := Match(TableOf(all), a);
    if found.Some? && found.value !in kept {
      DroppedInAll(all, a, found.value);
      DroppedRow(all, kept, a, found.value);
    } else {
      KeptRow(all, kept, a);
    }
  }

  lemma DroppedInAll(all: seq<Block>, a: Address, d: Block)
    requires Decides(all, a, d)
    ensures d in all
  {
  }

  /** Dropping denied rows that a kept row covers and denies changes no address's verdict. */
  lemma RedundantRowsChangeNothing(all: seq<Block>, kept: seq<Block>, a: Address)
    requires ValidBlocks(all) && ValidBlocks(kept) && OnlyRedundantDropped(all, kept)
    ensures Blocked(TableOf(all), a) == Blocked(TableOf(kept), a)
  {
    hide Match, TableOf, Blocked, OnlyRedundantDropped;
    var t, u := TableOf(all), TableOf(kept);
    RedundantMatch(all, kept, a);
    ClassifyMeaning(t, a);
    ClassifyMeaning(u, a);
    if Match(t, a).Some? && Match(t, a).value.reach.Translated? && a.V6? {
      var inner := EmbeddedV4(a, Match(t, a).value.network);
      forall i | 0 <= i < |inner|
        ensures Blocked(t, inner[i]) == Blocked(u, inner[i])
      {
        RedundantMatch(all, kept, inner[i]);
        ClassifyMeaning(t, inner[i]);
        ClassifyMeaning(u, inner[i]);
      }
    }
  }
}

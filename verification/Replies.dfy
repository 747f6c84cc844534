/** Printing queries and replies, and the proof that the parser undoes the printer. */
module Replies {
  import opened Wire
  import opened Names
  import opened Networks
  import opened Messages

  // ---------- printing ----------

  /** A name written out, or some labels closed by a compression pointer. */
  datatype Spelling = Plain(labels: seq<string>) | Tailed(head: seq<string>, target: nat)

  predicate Printable(s: Spelling) {
    if s.Plain? then AreLabels(s.labels) else AreLabels(s.head) && s.target < 0x4000
  }

  function PrintName(s: Spelling): (w: seq<byte>)
    requires Printable(s)
  {
    if s.Plain? then WireName(s.labels) else Labels(s.head) + PutU16(0xC000 + s.target)
  }

  /** What a spelling means after `p` has been printed: its pointer leads back into `p`. */
  function Means(p: seq<byte>, s: Spelling): (labels: Option<seq<string>>)
  {
    if !Printable(s) then None
    else if s.Plain? then (if LabelBytes(s.labels) <= MAX_NAME_BYTES then Some(s.labels) else None)
    else if LabelBytes(s.head) > MAX_NAME_BYTES then None
    else Prepend(s.head, Expand(p, s.target, MAX_NAME_BYTES - LabelBytes(s.head), MAX_JUMPS - 1))
  }

  datatype Entry =
    | AliasEntry(owner: Spelling, ttl: nat, target: Spelling)
    | AddressEntry(owner: Spelling, ttl: nat, ip: Address)

  predicate PrintableEntry(e: Entry) {
    && Printable(e.owner)
    && e.ttl < 0x1_0000_0000
    && (if e.AliasEntry? then Printable(e.target) && |PrintName(e.target)| < 0x1_0000 else ValidAddress(e.ip))
  }

  function TypeOf(e: Entry): (t: nat) {
    if e.AliasEntry? then TYPE_CNAME else if e.ip.V4? then TYPE_A else TYPE_AAAA
  }

  function Data(e: Entry): (w: seq<byte>)
    requires PrintableEntry(e)
    ensures |w| < 0x1_0000
  {
    if e.AliasEntry? then PrintName(e.target) else Packed(e.ip)
  }

  function Fixed(e: Entry): (w: seq<byte>)
    requires PrintableEntry(e)
    ensures |w| == RECORD_SIZE
  {
    PutU16(TypeOf(e)) + PutU16(CLASS_IN) + PutU32(e.ttl) + PutU16(|Data(e)|)
  }

  function PrintEntry(e: Entry): (w: seq<byte>)
    requires PrintableEntry(e)
  {
    PrintName(e.owner) + (Fixed(e) + Data(e))
  }

  /** The record an entry stands for when printed after `p`. */
  function Says(p: seq<byte>, e: Entry): (r: Option<RawRecord>)
  {
    if !PrintableEntry(e) || Means(p, e.owner).None? then None
    else
      var owner := Lower(Join(Means(p, e.owner).value));
      if e.AddressEntry? then Some(RawRecord(owner, TypeOf(e), CLASS_IN, e.ttl, Data(e), None))
      else
        match Means(p + PrintName(e.owner) + Fixed(e), e.target)
        case None => None
        case Some(labels) => Some(RawRecord(owner, TYPE_CNAME, CLASS_IN, e.ttl, Data(e), Some(Lower(Join(labels)))))
  }

  function PrintAll(p: seq<byte>, es: seq<Entry>): (m: seq<byte>)
    requires forall e :: e in es ==> PrintableEntry(e)
    ensures p <= m
    decreases |es|
  {
    if es == [] then p else PrintAll(p + PrintEntry(es[0]), es[1..])
  }

  function SaysAll(p: seq<byte>, es: seq<Entry>): (rs: Option<seq<RawRecord>>)
    ensures rs.Some? ==> |rs.value| == |es| && forall e :: e in es ==> PrintableEntry(e)
    decreases |es|
  {
    if es == [] then Some([])
    else if Says(p, es[0]).None? then None
    else Following([Says(p, es[0]).value], SaysAll(p + PrintEntry(es[0]), es[1..]))
  }

  function Header(id: nat, flags: nat, qd: nat, an: nat, ns: nat, ar: nat): (w: seq<byte>)
    requires id < 0x1_0000 && flags < 0x1_0000 && qd < 0x1_0000 && an < 0x1_0000 && ns < 0x1_0000 && ar < 0x1_0000
    ensures |w| == HEADER_SIZE
  {
    PutU16(id) + PutU16(flags) + PutU16(qd) + PutU16(an) + PutU16(ns) + PutU16(ar)
  }

  /** The query asked: one question, recursion desired. */
  function Query(txid: nat, question: seq<byte>, qtype: AddressType): (w: seq<byte>)
    requires txid < 0x1_0000
  {
    Header(txid, QUERY_FLAGS, 1, 0, 0, 0) + question + (PutU16(qtype) + PutU16(CLASS_IN))
  }

  // ---------- reading back ----------

  lemma U16Back(m: seq<byte>, o: nat, v: nat)
    requires v < 0x1_0000 && Holds(m, o, PutU16(v))
    ensures U16(m, o) == v
  {
    assert PutU16(v)[0] == m[o] && PutU16(v)[1] == m[o + 1];
  }

  lemma U32Back(m: seq<byte>, o: nat, v: nat)
    requires v < 0x1_0000_0000 && Holds(m, o, PutU32(v))
    ensures U32(m, o) == v
  {
    HoldsParts(m, o, PutU16(v / 0x1_0000), PutU16(v % 0x1_0000));
    U16Back(m, o, v / 0x1_0000);
    U16Back(m, o + 2, v % 0x1_0000);
  }

  lemma HeaderBack(m: seq<byte>, id: nat, flags: nat, qd: nat, an: nat, ns: nat, ar: nat)
    requires id < 0x1_0000 && flags < 0x1_0000 && qd < 0x1_0000 && an < 0x1_0000 && ns < 0x1_0000 && ar < 0x1_0000
    requires Holds(m, 0, Header(id, flags, qd, an, ns, ar))
    ensures U16(m, 0) == id && U16(m, 2) == flags && U16(m, 4) == qd && U16(m, 6) == an
  {
    var w4 := PutU16(id) + PutU16(flags) + PutU16(qd) + PutU16(an);
    HoldsParts(m, 0, w4 + PutU16(ns), PutU16(ar));
    HoldsParts(m, 0, w4, PutU16(ns));
    HoldsParts(m, 0, PutU16(id) + PutU16(flags) + PutU16(qd), PutU16(an));
    HoldsParts(m, 0, PutU16(id) + PutU16(flags), PutU16(qd));
    HoldsParts(m, 0, PutU16(id), PutU16(flags));
    U16Back(m, 0, id);
    U16Back(m, 2, flags);
    U16Back(m, 4, qd);
    U16Back(m, 6, an);
  }

  lemma FixedBack(m: seq<byte>, o: nat, e: Entry)
    requires PrintableEntry(e) && Holds(m, o, Fixed(e))
    ensures U16(m, o) == TypeOf(e) && U16(m, o + 2) == CLASS_IN && U32(m, o + 4) == e.ttl
    ensures U16(m, o + 8) == |Data(e)|
  {
    HoldsParts(m, o, PutU16(TypeOf(e)) + PutU16(CLASS_IN) + PutU32(e.ttl), PutU16(|Data(e)|));
    HoldsParts(m, o, PutU16(TypeOf(e)) + PutU16(CLASS_IN), PutU32(e.ttl));
    HoldsParts(m, o, PutU16(TypeOf(e)), PutU16(CLASS_IN));
    U16Back(m, o, TypeOf(e));
    U16Back(m, o + 2, CLASS_IN);
    U32Back(m, o + 4, e.ttl);
    U16Back(m, o + 8, |Data(e)|);
  }

  /** A pointer expands to what it leads back to, one jump later. */
  lemma PointerBack(m: seq<byte>, q: nat, target: nat, tail: seq<string>, jumps: nat)
    requires target < 0x4000 && Holds(m, q, PutU16(0xC000 + target)) && Expands(m, target, tail, jumps)
    ensures Expands(m, q, tail, jumps + 1) && EndOf(m, q) == Some(q + 2)
  {
    U16Back(m, q, 0xC000 + target);
    assert PutU16(0xC000 + target)[0] == m[q];
  }

  /** What a pointer leads back to after `p` expands the same in any message `p` begins. */
  lemma TargetBack(m: seq<byte>, p: seq<byte>, target: nat, room: nat) returns (tail: seq<string>, jumps: nat)
    requires p <= m && Expand(p, target, room, MAX_JUMPS - 1).Some?
    ensures Expand(p, target, room, MAX_JUMPS - 1) == Some(tail)
    ensures Expands(m, target, tail, jumps) && jumps < MAX_JUMPS && LabelBytes(tail) <= room
  {
    hide Expand, Expands;
    tail := Expand(p, target, room, MAX_JUMPS - 1).value;
    jumps := ExpandSound(p, target, room, MAX_JUMPS - 1);
    assert m == p + m[|p|..];
    ExpandsInLonger(p, m[|p|..], target, tail, jumps);
  }

  /** Labels closed by a pointer read back as the labels and what the pointer leads back to. */
  lemma TailedBack(m: seq<byte>, o: nat, head: seq<string>, target: nat, tail: seq<string>, jumps: nat)
    requires AreLabels(head) && target < 0x4000 && Holds(m, o, Labels(head) + PutU16(0xC000 + target))
    requires Expands(m, target, tail, jumps) && jumps < MAX_JUMPS
    requires LabelBytes(head) + LabelBytes(tail) <= MAX_NAME_BYTES
    ensures Decode(m, o) == Some(Decoded(Join(head + tail), o + LabelBytes(head) + 2))
  {
    hide Decode, Expands, Join, EndOf, Labels, Holds, PutU16, AreLabels, Spelled, LabelBytes;
    HoldsParts(m, o, Labels(head), PutU16(0xC000 + target));
    WrittenLabels(m, o, head);
    PointerBack(m, o + LabelBytes(head), target, tail, jumps);
    LabelBytesAppend(head, tail);
    DecodeSpelled(m, o, head, tail, jumps + 1);
  }

  /** A name printed after `p` reads back as what it means there, whatever follows. */
  lemma NameBack(m: seq<byte>, p: seq<byte>, s: Spelling)
    requires p <= m && Means(p, s).Some? && Holds(m, |p|, PrintName(s))
    ensures Decode(m, |p|) == Some(Decoded(Join(Means(p, s).value), |p| + |PrintName(s)|))
  {
    hide Decode, Expand, Expands, Join, Labels, Holds, PutU16, AreLabels, LabelBytes;
    if s.Plain? {
      DecodeWritten(m, |p|, s.labels);
    } else {
      var tail, jumps := TargetBack(m, p, s.target, MAX_NAME_BYTES - LabelBytes(s.head));
      TailedBack(m, |p|, s.head, s.target, tail, jumps);
    }
  }

  lemma {:induction false} LabelBytesAppend(head: seq<string>, tail: seq<string>)
    ensures LabelBytes(head + tail) == LabelBytes(head) + LabelBytes(tail)
  {
    if head == [] {
      assert head + tail == tail;
    } else {
      assert (head + tail)[1..] == head[1..] + tail;
      LabelBytesAppend(head[1..], tail);
    }
  }

  /** Where the parts of a printed entry stand. */
  lemma EntryParts(m: seq<byte>, p: seq<byte>, e: Entry)
    requires PrintableEntry(e) && p + PrintEntry(e) <= m
    ensures var o := |p| + |PrintName(e.owner)|;
            && Holds(m, |p|, PrintName(e.owner))
            && Holds(m, o, Fixed(e))
            && Holds(m, o + RECORD_SIZE, Data(e))
            && p + PrintName(e.owner) + Fixed(e) <= m
            && |p + PrintEntry(e)| == o + RECORD_SIZE + |Data(e)|
  {
    hide Fixed, Data, PrintName, Holds;
    PartsStand(m, p, PrintName(e.owner), Fixed(e), Data(e));
  }

  /** Where three parts printed after `p` stand. */
  lemma PartsStand(m: seq<byte>, p: seq<byte>, a: seq<byte>, b: seq<byte>, c: seq<byte>)
    requires p + (a + (b + c)) <= m
    ensures Holds(m, |p|, a) && Holds(m, |p| + |a|, b) && Holds(m, |p| + |a| + |b|, c)
    ensures p + a + b <= m
  {
    StandsBehind(m, p, a, b + c);
    StandsBehind(m, p + a, b, c);
    assert p + a + b + c == p + a + (b + c);
    StandsBehind(m, p + a + b, c, []);
  }

  lemma StandsBehind(m: seq<byte>, p: seq<byte>, a: seq<byte>, more: seq<byte>)
    requires p + (a + more) <= m || p + a + more <= m
    ensures Holds(m, |p|, a) && p + a <= m && p + a + more <= m && p + a + more == p + (a + more)
  {
    assert p + a + more == p + (a + more);
    forall i | 0 <= i < |a|
      ensures a[i] == m[|p| + i]
    {
      assert (p + a + more)[|p| + i] == a[i];
    }
  }

  /** An entry printed after `p` reads back as the record it says. */
  lemma EntryBack(m: seq<byte>, p: seq<byte>, e: Entry)
    requires Says(p, e).Some? && p + PrintEntry(e) <= m
    ensures ReadRecord(m, |p|) == Some((Says(p, e).value, |p| + |PrintEntry(e)|))
  {
    hide Decode, Means, Join, Lower, U16, U32, PrintName, Printable, Fixed, PrintEntry, Data;
    var o := |p| + |PrintName(e.owner)|;
    EntryParts(m, p, e);
    NameBack(m, p, e.owner);
    FixedBack(m, o, e);
    assert m[o + RECORD_SIZE..o + RECORD_SIZE + |Data(e)|] == Data(e);
    if e.AliasEntry? {
      AliasBack(m, p + PrintName(e.owner) + Fixed(e), e);
    }
  }

  lemma AliasBack(m: seq<byte>, q: seq<byte>, e: Entry)
    requires e.AliasEntry? && PrintableEntry(e) && q <= m && Holds(m, |q|, Data(e)) && Means(q, e.target).Some?
    ensures AliasAt(m, |q|, TypeOf(e)) == Some(Lower(Join(Means(q, e.target).value)))
  {
    hide Decode, Means, Join, Lower, PrintName, Printable, Holds;
    NameBack(m, q, e.target);
  }

  lemma {:induction false} SectionBack(m: seq<byte>, p: seq<byte>, es: seq<Entry>)
    requires SaysAll(p, es).Some? && PrintAll(p, es) <= m
    ensures Section(m, |p|, |es|) == SaysAll(p, es)
    decreases |es|
  {
    hide ReadRecord, Says, PrintEntry, PrintableEntry;
    if es != [] {
      var q := p + PrintEntry(es[0]);
      assert q <= PrintAll(q, es[1..]);
      EntryBack(m, p, es[0]);
      SectionBack(m, q, es[1..]);
    }
  }

  // ---------- CNAME chains ----------

  /** The name a chain of aliases has led to after its first `i` records. */
  function LedTo(rs: seq<RawRecord>, i: nat, name: string): (owner: Option<string>)
    requires i <= |rs|
  {
    if i == 0 then Some(name) else rs[i - 1].alias
  }

  /** `n` aliases in order, then answers owned by the end of the chain. */
  predicate IsChain(rs: seq<RawRecord>, n: nat, name: string, qtype: AddressType) {
    && n <= |rs|
    && (forall i :: 0 <= i < n ==> IsAlias(rs[i]) && Some(rs[i].owner) == LedTo(rs, i, name) && rs[i].alias.Some?)
    && (forall i :: n <= i < |rs| ==>
          && Some(rs[i].owner) == LedTo(rs, n, name)
          && rs[i].rclass == CLASS_IN && rs[i].rtype == qtype
          && AddressFrom(rs[i].rdata, qtype).Some?)
  }

  lemma {:induction false} ChainReached(rs: seq<RawRecord>, n: nat, name: string, qtype: AddressType, i: nat)
    requires IsChain(rs, n, name, qtype) && i <= n
    ensures LedTo(rs, i, name).Some? && Reached(rs, i, name, LedTo(rs, i, name).value)
  {
    hide Reached, AddressFrom;
    if i == 0 {
      ReachedAtOnce(rs, 0, name);
    } else {
      ChainReached(rs, n, name, qtype, i - 1);
      ReachedStep(rs, i - 1, name, rs[i - 1].alias.value);
    }
  }

  lemma ReachedAtOnce(rs: seq<RawRecord>, i: nat, name: string)
    requires i <= |rs|
    ensures Reached(rs, i, name, name)
  {
  }

  lemma ReachedStep(rs: seq<RawRecord>, i: nat, name: string, owner: string)
    requires i < |rs| && IsAlias(rs[i]) && rs[i].alias == Some(owner) && Reached(rs, i, name, rs[i].owner)
    ensures Reached(rs, i + 1, name, owner)
  {
  }

  lemma ReachedLater(rs: seq<RawRecord>, i: nat, k: nat, name: string, owner: string)
    requires i <= k <= |rs| && Reached(rs, i, name, owner)
    ensures Reached(rs, k, name, owner)
  {
  }

  /** The addresses carried by the records from `n` on. */
  function Carried(rs: seq<RawRecord>, n: nat, qtype: AddressType): (out: seq<Record>)
    requires n <= |rs| && forall i :: n <= i < |rs| ==> AddressFrom(rs[i].rdata, qtype).Some?
    ensures |out| == |rs| - n
  {
    seq(|rs| - n, k requires 0 <= k < |rs| - n => Record(AddressFrom(rs[n + k].rdata, qtype).value, rs[n + k].ttl))
  }

  lemma {:induction false} ChainAnswering(rs: seq<RawRecord>, n: nat, name: string, qtype: AddressType, i: nat)
    requires IsChain(rs, n, name, qtype) && n <= i <= |rs|
    ensures Answering(rs, i, name, qtype) == Carried(rs, n, qtype)[..i - n]
    decreases i
  {
    hide Reached, AddressFrom;
    if i == n {
      NoAnswerYet(rs, n, name, qtype, n);
    } else {
      ChainAnswering(rs, n, name, qtype, i - 1);
      ChainReached(rs, n, name, qtype, n);
      ReachedLater(rs, n, i - 1, name, rs[i - 1].owner);
    }
  }

  lemma {:induction false} NoAnswerYet(rs: seq<RawRecord>, n: nat, name: string, qtype: AddressType, i: nat)
    requires IsChain(rs, n, name, qtype) && i <= n
    ensures Answering(rs, i, name, qtype) == []
  {
    if i > 0 {
      NoAnswerYet(rs, n, name, qtype, i - 1);
    }
  }

  /** A well-formed chain yields exactly the addresses at its end, in order. */
  lemma ChainSelected(rs: seq<RawRecord>, n: nat, name: string, qtype: AddressType)
    requires IsChain(rs, n, name, qtype)
    ensures Selected(rs, name, qtype) == Some(Carried(rs, n, qtype))
  {
    ChainAnswering(rs, n, name, qtype, |rs|);
    assert Carried(rs, n, qtype)[..|rs| - n] == Carried(rs, n, qtype);
  }

  // ---------- the round trip ----------

  /** The addresses and lifetimes a list of entries was built from. */
  function Given(es: seq<Entry>): (out: seq<Record>)
    requires forall e :: e in es ==> e.AddressEntry?
  {
    seq(|es|, k requires 0 <= k < |es| => Record(es[k].ip, es[k].ttl))
  }

  lemma AddressBack(e: Entry, qtype: AddressType)
    requires e.AddressEntry? && PrintableEntry(e) && TypeOf(e) == qtype
    ensures AddressFrom(Data(e), qtype) == Some(e.ip)
  {
    NumberOfPack(e.ip.value, if e.ip.V4? then 4 else 16);
  }

  /** The printed entries are a chain from `name`: aliases in order, then addresses of the family
      asked for, owned by where the chain ends. */
  predicate IsReplyTo(p: seq<byte>, aliases: seq<Entry>, addresses: seq<Entry>, name: string, qtype: AddressType) {
    && (forall e :: e in aliases ==> e.AliasEntry?)
    && (forall e :: e in addresses ==> e.AddressEntry? && TypeOf(e) == qtype)
    && match SaysAll(p, aliases + addresses)
       case None => false
       case Some(rs) =>
         && (forall i :: 0 <= i < |aliases| ==> Some(rs[i].owner) == LedTo(rs, i, Lower(name)))
         && (forall i :: |aliases| <= i < |rs| ==> Some(rs[i].owner) == LedTo(rs, |aliases|, Lower(name)))
  }

  lemma SaysAllCons(p: seq<byte>, es: seq<Entry>)
    requires SaysAll(p, es).Some? && es != []
    ensures PrintableEntry(es[0]) && Says(p, es[0]).Some? && SaysAll(p + PrintEntry(es[0]), es[1..]).Some?
    ensures SaysAll(p, es).value == [Says(p, es[0]).value] + SaysAll(p + PrintEntry(es[0]), es[1..]).value
  {
    hide Says, PrintEntry, PrintableEntry;
  }

  lemma {:induction false} SaysAllAt(p: seq<byte>, es: seq<Entry>, i: nat) returns (q: seq<byte>)
    requires SaysAll(p, es).Some? && i < |es|
    ensures Says(q, es[i]) == Some(SaysAll(p, es).value[i])
    decreases |es|
  {
    hide Says, PrintEntry, PrintableEntry, SaysAll;
    SaysAllCons(p, es);
    if i == 0 {
      q := p;
    } else {
      q := SaysAllAt(p + PrintEntry(es[0]), es[1..], i - 1);
    }
  }

  lemma AliasSaid(p: seq<byte>, es: seq<Entry>, i: nat)
    requires SaysAll(p, es).Some? && i < |es| && es[i].AliasEntry?
    ensures var r := SaysAll(p, es).value[i]; IsAlias(r) && r.alias.Some?
  {
    hide SaysAll, Means, Data, Fixed, PrintName, PrintableEntry, Join, Lower;
    var _ := SaysAllAt(p, es, i);
  }

  lemma AddressSaid(p: seq<byte>, es: seq<Entry>, i: nat, qtype: AddressType)
    requires SaysAll(p, es).Some? && i < |es| && es[i].AddressEntry? && TypeOf(es[i]) == qtype
    ensures var r := SaysAll(p, es).value[i];
            && r.rclass == CLASS_IN && r.rtype == qtype
            && AddressFrom(r.rdata, qtype) == Some(es[i].ip) && r.ttl == es[i].ttl
  {
    hide SaysAll, Means, Data, Fixed, PrintName, Join, Lower, AddressFrom;
    var _ := SaysAllAt(p, es, i);
    AddressBack(es[i], qtype);
  }

  lemma ReplyIsChain(p: seq<byte>, aliases: seq<Entry>, addresses: seq<Entry>, name: string, qtype: AddressType)
    requires IsReplyTo(p, aliases, addresses, name, qtype)
    ensures var rs := SaysAll(p, aliases + addresses).value;
            && IsChain(rs, |aliases|, Lower(name), qtype)
            && Carried(rs, |aliases|, qtype) == Given(addresses)
  {
    hide SaysAll, LedTo, IsAlias, AddressFrom, TypeOf, Lower;
    var es := aliases + addresses;
    var rs := SaysAll(p, es).value;
    forall i | 0 <= i < |aliases|
      ensures IsAlias(rs[i]) && rs[i].alias.Some?
    {
      assert es[i] in aliases;
      AliasSaid(p, es, i);
    }
    forall i | |aliases| <= i < |rs|
      ensures rs[i].rclass == CLASS_IN && rs[i].rtype == qtype
      ensures AddressFrom(rs[i].rdata, qtype) == Some(addresses[i - |aliases|].ip)
      ensures rs[i].ttl == addresses[i - |aliases|].ttl
    {
      assert es[i] in addresses;
      AddressSaid(p, es, i, qtype);
    }
  }

  /** A reply up to its answer section: the header and the question echoed from the query. */
  function Opening(name: string, txid: nat, qtype: AddressType, flags: nat, an: nat, ns: nat, ar: nat): (p: seq<byte>)
    requires Encode(name).Some? && txid < 0x1_0000 && flags < 0x1_0000
    requires an < 0x1_0000 && ns < 0x1_0000 && ar < 0x1_0000
  {
    Header(txid, flags, 1, an, ns, ar) + Query(txid, Encode(name).value, qtype)[HEADER_SIZE..]
  }

  lemma OpeningBack(m: seq<byte>, name: string, txid: nat, qtype: AddressType, flags: nat, an: nat, ns: nat, ar: nat)
    requires Encode(name).Some? && txid < 0x1_0000 && flags < 0x1_0000
    requires an < 0x1_0000 && ns < 0x1_0000 && ar < 0x1_0000
    requires Opening(name, txid, qtype, flags, an, ns, ar) <= m
    ensures HEADER_SIZE <= |m|
    ensures U16(m, 0) == txid && U16(m, 2) == flags && U16(m, 4) == 1 && U16(m, 6) == an
    ensures CheckQuestion(m, 1, StripDots(name), qtype) == Echoed(|Opening(name, txid, qtype, flags, an, ns, ar)|)
  {
    hide CheckQuestion, Encode, U16, Header, Holds, PutU16;
    var question := Encode(name).value;
    var header := Header(txid, flags, 1, an, ns, ar);
    var asked := PutU16(qtype) + PutU16(CLASS_IN);
    var p := Opening(name, txid, qtype, flags, an, ns, ar);
    assert p == [] + (header + (question + asked));
    PartsStand(m, [], header, question, asked);
    assert HEADER_SIZE <= |p| <= |m|;
    HeaderBack(m, txid, flags, 1, an, ns, ar);
    QuestionBack(m, name, txid, qtype);
  }

  /** The parser undoes the printer. For every name that can be asked, every transaction id, every
      reply to it made of the echoed question, a chain of aliases in order and addresses owned by its
      end, names spelled plainly or with pointers, and any trailing sections, parsing gives exactly
      those addresses and lifetimes in order, and the truncation bit. */
  lemma ParserUndoesPrinter(name: string, txid: nat, qtype: AddressType, flags: nat, ns: nat, ar: nat,
                            aliases: seq<Entry>, addresses: seq<Entry>, more: seq<byte>)
    requires Encode(name).Some? && txid < 0x1_0000 && ns < 0x1_0000 && ar < 0x1_0000
    requires 0x8000 <= flags < 0x1_0000 && flags % 0x10 == 0
    requires |aliases + addresses| < 0x1_0000
    requires IsReplyTo(Opening(name, txid, qtype, flags, |aliases + addresses|, ns, ar),
                       aliases, addresses, StripDots(name), qtype)
    ensures var p := Opening(name, txid, qtype, flags, |aliases + addresses|, ns, ar);
            Parse(PrintAll(p, aliases + addresses) + more, txid, StripDots(name), qtype)
            == Answer(Given(addresses), flags / 0x0200 % 2 == 1)
  {
    hide PrintAll, SaysAll, Selected, Section, Encode, U16, LedTo, IsChain, Carried, CheckQuestion, Opening;
    var es := aliases + addresses;
    var p := Opening(name, txid, qtype, flags, |es|, ns, ar);
    var m := PrintAll(p, es) + more;
    assert p <= m;
    OpeningBack(m, name, txid, qtype, flags, |es|, ns, ar);
    SectionBack(m, p, es);
    ReplyIsChain(p, aliases, addresses, StripDots(name), qtype);
    ChainSelected(SaysAll(p, es).value, |aliases|, Lower(StripDots(name)), qtype);
  }

  lemma QuestionBack(m: seq<byte>, name: string, txid: nat, qtype: AddressType)
    requires Encode(name).Some? && HEADER_SIZE <= |m|
    requires Holds(m, HEADER_SIZE, Encode(name).value)
    requires Holds(m, HEADER_SIZE + |Encode(name).value|, PutU16(qtype) + PutU16(CLASS_IN))
    ensures CheckQuestion(m, 1, StripDots(name), qtype) == Echoed(HEADER_SIZE + |Encode(name).value| + 4)
  {
    hide Decode, Split, Labels, Holds, PutU16, U16, LabelBytes, CheckQuestion;
    WrittenQuestionBack(m, Split(StripDots(name)), qtype);
    JoinOfSplit(StripDots(name));
  }

  /** A question written out from labels is taken for a question about their joined text. */
  lemma WrittenQuestionBack(m: seq<byte>, labels: seq<string>, qtype: AddressType)
    requires AreLabels(labels) && LabelBytes(labels) <= MAX_NAME_BYTES && HEADER_SIZE <= |m|
    requires Holds(m, HEADER_SIZE, WireName(labels))
    requires Holds(m, HEADER_SIZE + |WireName(labels)|, PutU16(qtype) + PutU16(CLASS_IN))
    ensures CheckQuestion(m, 1, Join(labels), qtype) == Echoed(HEADER_SIZE + |WireName(labels)| + 4)
  {
    hide Decode, Labels, PutU16, U16, LabelBytes, AreLabels, Join, WireName;
    var next := HEADER_SIZE + |WireName(labels)|;
    DecodeWritten(m, HEADER_SIZE, labels);
    HoldsParts(m, next, PutU16(qtype), PutU16(CLASS_IN));
    U16Back(m, next, qtype);
    U16Back(m, next + 2, CLASS_IN);
  }

  /** The query asked reads back as one recursive question, of this id, name and type, and nothing behind it. */
  lemma QueryBack(name: string, txid: nat, qtype: AddressType)
    requires Encode(name).Some? && txid < 0x1_0000
    ensures var m := Query(txid, Encode(name).value, qtype);
            && HEADER_SIZE <= |m|
            && U16(m, 0) == txid && U16(m, 2) == 0x0100 && U16(m, 4) == 1 && U16(m, 6) == 0
            && CheckQuestion(m, 1, StripDots(name), qtype) == Echoed(|m|)
  {
    hide CheckQuestion, Encode, U16, Header, Holds, PutU16;
    var m, header := Query(txid, Encode(name).value, qtype), Header(txid, 0x0100, 1, 0, 0, 0);
    var asked := PutU16(qtype) + PutU16(CLASS_IN);
    assert m == [] + (header + (Encode(name).value + asked));
    PartsStand(m, [], header, Encode(name).value, asked);
    HeaderBack(m, txid, 0x0100, 1, 0, 0, 0);
    QuestionBack(m, name, txid, qtype);
  }

  /** A reply whose question is one label that holds a dot. */
  function DottedReply(left: string, right: string, txid: nat, qtype: AddressType): (m: seq<byte>)
    requires IsLabel(left + "." + right) && txid < 0x1_0000
  {
    Header(txid, 0x8000, 1, 0, 0, 0) + (WireName([left + "." + right]) + (PutU16(qtype) + PutU16(CLASS_IN)))
  }

  /** The exception is real: asked about two labels, the resolver accepts a reply about the one label that
      spells both, though the question's bytes differ. */
  lemma DottedReplyIsAccepted(left: string, right: string, txid: nat, qtype: AddressType)
    requires IsLabel(left) && IsLabel(right) && IsLabel(left + "." + right) && '.' !in left && '.' !in right
    requires txid < 0x1_0000
    ensures Parse(DottedReply(left, right, txid, qtype), txid, left + "." + right, qtype) == Answer([], false)
    ensures Encode(left + "." + right) == Some(WireName([left, right]))
    ensures WireName([left, right]) != WireName([left + "." + right])
  {
    hide IsLabel, Parse, DottedReply, Encode, WireName, CheckQuestion;
    DotIsSplit(left, right);
    var m := DottedReply(left, right, txid, qtype);
    DottedReplyBack(m, left, right, txid, qtype);
    NothingAnswered(m, txid, left + "." + right, qtype);
  }

  lemma DottedReplyBack(m: seq<byte>, left: string, right: string, txid: nat, qtype: AddressType)
    requires IsLabel(left + "." + right) && txid < 0x1_0000 && m == DottedReply(left, right, txid, qtype)
    ensures HEADER_SIZE <= |m| && U16(m, 0) == txid && U16(m, 2) == 0x8000 && U16(m, 4) == 1 && U16(m, 6) == 0
    ensures CheckQuestion(m, 1, left + "." + right, qtype).Echoed?
  {
    hide IsLabel, Header, WireName, PutU16, U16, Holds, CheckQuestion, LabelBytes, Join;
    var name := left + "." + right;
    var header, asked := Header(txid, 0x8000, 1, 0, 0, 0), PutU16(qtype) + PutU16(CLASS_IN);
    OneLabelBytes(name);
    var question := WireName([name]);
    assert m == [] + (header + (question + asked));
    PartsStand(m, [], header, question, asked);
    HeaderBack(m, txid, 0x8000, 1, 0, 0, 0);
    WrittenQuestionBack(m, [name], qtype);
  }

  lemma OneLabelBytes(part: string)
    requires IsLabel(part)
    ensures AreLabels([part]) && LabelBytes([part]) <= MAX_NAME_BYTES && Join([part]) == part
  {
    assert [part][1..] == [];
  }

  lemma NothingAnswered(m: seq<byte>, txid: nat, name: string, qtype: AddressType)
    requires HEADER_SIZE <= |m| && U16(m, 0) == txid && U16(m, 2) == 0x8000 && U16(m, 4) == 1 && U16(m, 6) == 0
    requires CheckQuestion(m, 1, name, qtype).Echoed?
    ensures Parse(m, txid, name, qtype) == Answer([], false)
  {
    hide U16, CheckQuestion;
  }
}

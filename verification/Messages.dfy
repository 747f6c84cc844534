/** Reading one DNS reply (RFC 1035, 4.1): the question check and the one-pass walk over CNAME chains. */
module Messages {
  import opened Wire
  import opened Names
  import opened Networks

  const TYPE_A := 1
  const TYPE_CNAME := 5
  const TYPE_AAAA := 28
  const CLASS_IN := 1
  const HEADER_SIZE := 12
  const RECORD_SIZE := 10
  const QUERY_FLAGS := 0x0100

  /** The two types ever asked for. */
  type AddressType = t: nat | t == TYPE_A || t == TYPE_AAAA witness TYPE_A

  datatype Record = Record(ip: Address, ttl: nat)

  /** A reply read, or the reason it was not: each exception is a constructor. */
  datatype Parsed =
    | Answer(records: seq<Record>, truncated: bool)
    | Malformed
    | WrongQuestion
    | ServerFailure

  datatype Question = Echoed(next: nat) | Unreadable | Different

  /** One resource record as it stands in a message; `alias` is what a CNAME points at. */
  datatype RawRecord = RawRecord(
    owner: string, rtype: nat, rclass: nat, ttl: nat, rdata: seq<byte>, alias: Option<string>)

  // ---------- one record ----------

  function AliasAt(m: seq<byte>, o: nat, rtype: nat): (alias: Option<string>) {
    if rtype != TYPE_CNAME then None
    else match Decode(m, o) case None => None case Some(d) => Some(Lower(d.text))
  }

  function ReadRecord(m: seq<byte>, o: nat): (r: Option<(RawRecord, nat)>)
  {
    match Decode(m, o)
    case None => None
    case Some(name) =>
      var fixed := name.next;
      var start := fixed + RECORD_SIZE;
      if start > |m| then None
      else if start + U16(m, fixed + 8) > |m| then None
      else
        var length := U16(m, fixed + 8);
        var rtype := U16(m, fixed);
        Some((RawRecord(Lower(name.text), rtype, U16(m, fixed + 2), U32(m, fixed + 4),
                        m[start..start + length], AliasAt(m, start, rtype)),
              start + length))
  }

  lemma ReadRecordSize(m: seq<byte>, o: nat)
    requires ReadRecord(m, o).Some?
    ensures var (r, next) := ReadRecord(m, o).value; o + 11 + |r.rdata| <= next <= |m|
  {
    DecodeMeaning(m, o);
  }

  function AddressFrom(rdata: seq<byte>, qtype: AddressType): (a: Option<Address>)
  {
    if |rdata| != (if qtype == TYPE_A then 4 else 16) then None
    else if |rdata| == 4 then Some(V4(Number(rdata)))
    else Some(V6(Number(rdata)))
  }

  // ---------- what an answer section means ----------

  predicate IsAlias(r: RawRecord) {
    r.rclass == CLASS_IN && r.rtype == TYPE_CNAME
  }

  /** The records of a section, read one after another whatever they say. */
  function Section(m: seq<byte>, o: nat, count: nat): (rs: Option<seq<RawRecord>>)
    decreases count, |m|
  {
    if count == 0 then Some([])
    else
      match ReadRecord(m, o)
      case None => None
      case Some(first) => Following([first.0], Section(m, first.1, count - 1))
  }

  function Following(rs: seq<RawRecord>, rest: Option<seq<RawRecord>>): (all: Option<seq<RawRecord>>) {
    match rest case None => None case Some(more) => Some(rs + more)
  }

  /** `owner` is the name asked for, or a CNAME among the first `i` records points at it whose
      own owner is reached before that CNAME stands. */
  ghost predicate Reached(rs: seq<RawRecord>, i: nat, name: string, owner: string)
    requires i <= |rs|
    decreases i
  {
    owner == name
    || exists j :: 0 <= j < i && IsAlias(rs[j]) && rs[j].alias == Some(owner) && Reached(rs, j, name, rs[j].owner)
  }

  /** Whether the record at `i` answers the question: reached, of class IN, of the type asked for. */
  ghost predicate Answers(rs: seq<RawRecord>, i: nat, name: string, qtype: AddressType)
    requires i < |rs|
  {
    rs[i].rclass == CLASS_IN && rs[i].rtype == qtype && Reached(rs, i, name, rs[i].owner)
  }

  /** A reached record the walk cannot use: an undecodable alias or an address of the wrong length. */
  ghost predicate Unusable(rs: seq<RawRecord>, i: nat, name: string, qtype: AddressType)
    requires i < |rs|
  {
    || (IsAlias(rs[i]) && Reached(rs, i, name, rs[i].owner) && rs[i].alias == None)
    || (Answers(rs, i, name, qtype) && AddressFrom(rs[i].rdata, qtype) == None)
  }

  /** The addresses of exactly the answering records among the first `i`, in section order. */
  ghost function Answering(rs: seq<RawRecord>, i: nat, name: string, qtype: AddressType): (out: seq<Record>)
    requires i <= |rs|
  {
    if i == 0 then []
    else if Answers(rs, i - 1, name, qtype) && AddressFrom(rs[i - 1].rdata, qtype).Some? then
      Answering(rs, i - 1, name, qtype) + [Record(AddressFrom(rs[i - 1].rdata, qtype).value, rs[i - 1].ttl)]
    else Answering(rs, i - 1, name, qtype)
  }

  ghost function Selected(rs: seq<RawRecord>, name: string, qtype: AddressType): (out: Option<seq<Record>>)
  {
    if exists i :: 0 <= i < |rs| && Unusable(rs, i, name, qtype) then None
    else Some(Answering(rs, |rs|, name, qtype))
  }

  ghost function RecordsOf(m: seq<byte>, o: nat, count: nat, name: string, qtype: AddressType)
    : (out: Option<seq<Record>>)
  {
    match Section(m, o, count)
    case None => None
    case Some(rs) => Selected(rs, Lower(name), qtype)
  }

  // ---------- the walk ----------

  lemma {:induction false} ReachedInLonger(rs: seq<RawRecord>, more: seq<RawRecord>, i: nat, name: string,
                                           owner: string)
    requires i <= |rs|
    ensures Reached(rs + more, i, name, owner) <==> Reached(rs, i, name, owner)
    decreases i
  {
    forall j | 0 <= j < i
      ensures Reached(rs + more, j, name, (rs + more)[j].owner) <==> Reached(rs, j, name, rs[j].owner)
    {
      ReachedInLonger(rs, more, j, name, rs[j].owner);
    }
  }

  lemma {:induction false} AnsweringInLonger(rs: seq<RawRecord>, more: seq<RawRecord>, i: nat, name: string,
                                             qtype: AddressType)
    requires i <= |rs|
    ensures Answering(rs + more, i, name, qtype) == Answering(rs, i, name, qtype)
  {
    if i > 0 {
      AnsweringInLonger(rs, more, i - 1, name, qtype);
      ReachedInLonger(rs, more, i - 1, name, rs[i - 1].owner);
    }
  }

  lemma UnusableInLonger(rs: seq<RawRecord>, more: seq<RawRecord>, i: nat, name: string, qtype: AddressType)
    requires i < |rs|
    ensures Unusable(rs + more, i, name, qtype) <==> Unusable(rs, i, name, qtype)
  {
    ReachedInLonger(rs, more, i, name, rs[i].owner);
  }

  /** Taking one more record into the walk. */
  lemma OneMore(rs: seq<RawRecord>, r: RawRecord, name: string, qtype: AddressType)
    requires forall i :: 0 <= i < |rs| ==> !Unusable(rs, i, name, qtype)
    ensures forall i :: 0 <= i < |rs| ==> !Unusable(rs + [r], i, name, qtype)
    ensures Answering(rs + [r], |rs|, name, qtype) == Answering(rs, |rs|, name, qtype)
    ensures forall owner :: Reached(rs + [r], |rs|, name, owner) == Reached(rs, |rs|, name, owner)
    ensures forall owner :: Reached(rs + [r], |rs| + 1, name, owner) ==
              (Reached(rs, |rs|, name, owner)
               || (IsAlias(r) && r.alias == Some(owner) && Reached(rs, |rs|, name, r.owner)))
  {
    var rs' := rs + [r];
    forall i | 0 <= i < |rs|
      ensures !Unusable(rs', i, name, qtype)
    {
      UnusableInLonger(rs, [r], i, name, qtype);
    }
    AnsweringInLonger(rs, [r], |rs|, name, qtype);
    forall owner
      ensures Reached(rs', |rs|, name, owner) == Reached(rs, |rs|, name, owner)
    {
      ReachedInLonger(rs, [r], |rs|, name, owner);
    }
    assert rs'[|rs|] == r;
  }

  /** What the loop knows after reading `rs`: nothing unusable, the addresses so far, the owners so far. */
  ghost predicate Walked(
      rs: seq<RawRecord>, name: string, qtype: AddressType, found: seq<Record>, accepted: set<string>)
  {
    && (forall i :: 0 <= i < |rs| ==> !Unusable(rs, i, name, qtype))
    && found == Answering(rs, |rs|, name, qtype)
    && (forall owner :: owner in accepted <==> Reached(rs, |rs|, name, owner))
  }

  lemma Started(rest: Option<seq<RawRecord>>, name: string, qtype: AddressType)
    ensures Following([], rest) == rest
    ensures Walked([], name, qtype, [], {name})
  {
    assert rest.Some? ==> [] + rest.value == rest.value;
  }

  /** One record in an unfinished walk: it ends the walk, or is passed over, or gives an alias, or an address. */
  lemma WalkOn(rs: seq<RawRecord>, r: RawRecord, name: string, qtype: AddressType,
               found: seq<Record>, accepted: set<string>)
    requires Walked(rs, name, qtype, found, accepted)
    ensures r.rclass != CLASS_IN || r.owner !in accepted ==> Walked(rs + [r], name, qtype, found, accepted)
    ensures r.rclass == CLASS_IN && r.owner in accepted ==>
              if r.rtype == TYPE_CNAME then
                if r.alias.None? then Unusable(rs + [r], |rs|, name, qtype)
                else Walked(rs + [r], name, qtype, found, accepted + {r.alias.value})
              else if r.rtype != qtype then Walked(rs + [r], name, qtype, found, accepted)
              else if AddressFrom(r.rdata, qtype).None? then Unusable(rs + [r], |rs|, name, qtype)
              else Walked(rs + [r], name, qtype, found + [Record(AddressFrom(r.rdata, qtype).value, r.ttl)], accepted)
  {
    OneMore(rs, r, name, qtype);
    assert (rs + [r])[|rs|] == r;
  }

  lemma SectionStep(m: seq<byte>, o: nat, count: nat, rs: seq<RawRecord>)
    requires count > 0
    ensures Following(rs, Section(m, o, count)) ==
            if ReadRecord(m, o).None? then None
            else Following(rs + [ReadRecord(m, o).value.0], Section(m, ReadRecord(m, o).value.1, count - 1))
  {
    if ReadRecord(m, o).Some? {
      var (r, next) := ReadRecord(m, o).value;
      var rest := Section(m, next, count - 1);
      assert rest.Some? ==> rs + ([r] + rest.value) == rs + [r] + rest.value;
    }
  }

  lemma Finished(rs: seq<RawRecord>, name: string, qtype: AddressType, found: seq<Record>, accepted: set<string>)
    requires Walked(rs, name, qtype, found, accepted)
    ensures Following(rs, Some([])) == Some(rs)
    ensures Selected(rs, name, qtype) == Some(found)
  {
    assert rs + [] == rs;
  }

  lemma Unused(rs: seq<RawRecord>, rest: Option<seq<RawRecord>>, i: nat, name: string, qtype: AddressType)
    requires i < |rs| && Unusable(rs, i, name, qtype)
    ensures Following(rs, rest).Some? ==> Selected(Following(rs, rest).value, name, qtype) == None
  {
    if rest.Some? {
      UnusableInLonger(rs, rest.value, i, name, qtype);
      assert Unusable(rs + rest.value, i, name, qtype);
    }
  }

  /** The body of the walk: pass a record over, follow its alias, or keep its address. */
  method TakeRecord(r: RawRecord, qtype: AddressType, found: seq<Record>, accepted: set<string>,
                    ghost rs: seq<RawRecord>, ghost name: string)
    returns (usable: bool, found': seq<Record>, accepted': set<string>)
    requires Walked(rs, name, qtype, found, accepted)
    ensures usable ==> Walked(rs + [r], name, qtype, found', accepted')
    ensures !usable ==> Unusable(rs + [r], |rs|, name, qtype)
  {
    WalkOn(rs, r, name, qtype, found, accepted);
    usable, found', accepted' := true, found, accepted;
    if r.rclass != CLASS_IN || r.owner !in accepted {
      return;
    }
    if r.rtype == TYPE_CNAME {
      if r.alias.None? {
        usable := false;
      } else {
        accepted' := accepted + {r.alias.value};
      }
    } else if r.rtype == qtype {
      var ip := AddressFrom(r.rdata, qtype);
      if ip.None? {
        usable := false;
      } else {
        found' := found + [Record(ip.value, r.ttl)];
      }
    }
  }

  /** The answer-section loop: a growing set of accepted owners and one pass are enough to find
      exactly the records the question reaches. */
  method ReadRecords(m: seq<byte>, start: nat, count: nat, name: string, qtype: AddressType)
    returns (out: Option<seq<Record>>)
    ensures out == RecordsOf(m, start, count, name, qtype)
  {
    hide Walked, Unusable, Decode, ReadRecord, Selected, Following;
    var asked := Lower(name);
    var accepted := {asked};
    var found: seq<Record> := [];
    var o := start;
    ghost var rs: seq<RawRecord> := [];
    ghost var whole := Section(m, o, count);
    Started(whole, asked, qtype);
    for k := 0 to count
      invariant |rs| == k
      invariant whole == Following(rs, Section(m, o, count - k))
      invariant Walked(rs, asked, qtype, found, accepted)
    {
      SectionStep(m, o, count - k, rs);
      var read := ReadRecord(m, o);
      if read.None? {
        return None;
      }
      var usable;
      usable, found, accepted := TakeRecord(read.value.0, qtype, found, accepted, rs, asked);
      o := read.value.1;
      rs := rs + [read.value.0];
      if !usable {
        Unused(rs, Section(m, o, count - k - 1), k, asked, qtype);
        return None;
      }
    }
    Finished(rs, asked, qtype, found, accepted);
    return Some(found);
  }

  // ---------- the whole reply ----------

  function CheckQuestion(m: seq<byte>, qdcount: nat, name: string, qtype: AddressType): (q: Question)
    requires HEADER_SIZE <= |m|
  {
    if qdcount != 1 then Different
    else
      match Decode(m, HEADER_SIZE)
      case None => Unreadable
      case Some(asked) =>
        if asked.next + 4 > |m| then Unreadable
        else if Lower(asked.text) != Lower(name) then Different
        else if U16(m, asked.next) != qtype || U16(m, asked.next + 2) != CLASS_IN then Different
        else Echoed(asked.next + 4)
  }

  ghost function Parse(m: seq<byte>, txid: nat, name: string, qtype: AddressType): (p: Parsed)
  {
    if |m| < HEADER_SIZE then Malformed
    else if U16(m, 0) != txid then WrongQuestion
    else if U16(m, 2) < 0x8000 then WrongQuestion
    else
      match CheckQuestion(m, U16(m, 4), name, qtype)
      case Unreadable => Malformed
      case Different => WrongQuestion
      case Echoed(next) =>
        var rcode := U16(m, 2) % 0x10;
        if rcode == 3 then Answer([], false)
        else if rcode != 0 then ServerFailure
        else
          match RecordsOf(m, next, U16(m, 6), name, qtype)
          case None => Malformed
          case Some(records) => Answer(records, U16(m, 2) / 0x0200 % 2 == 1)
  }

  method ParseReply(m: seq<byte>, txid: nat, name: string, qtype: AddressType) returns (p: Parsed)
    ensures p == Parse(m, txid, name, qtype)
  {
    if |m| < HEADER_SIZE {
      return Malformed;
    }
    var flags := U16(m, 2);
    if U16(m, 0) != txid {
      return WrongQuestion;
    }
    if flags < 0x8000 {
      return WrongQuestion;
    }
    var question := CheckQuestion(m, U16(m, 4), name, qtype);
    if question.Unreadable? {
      return Malformed;
    }
    if question.Different? {
      return WrongQuestion;
    }
    if flags % 0x10 == 3 {
      return Answer([], false);
    }
    if flags % 0x10 != 0 {
      return ServerFailure;
    }
    var records := ReadRecords(m, question.next, U16(m, 6), name, qtype);
    if records.None? {
      return Malformed;
    }
    return Answer(records.value, flags / 0x0200 % 2 == 1);
  }

  // ---------- soundness and size ----------

  /** A number read from two bytes is those two bytes. */
  lemma U16Stands(m: seq<byte>, o: nat, v: nat)
    requires v < 0x1_0000 && o + 2 <= |m| && U16(m, o) == v
    ensures Holds(m, o, PutU16(v))
  {
    var high: int := m[o];
    assert v / 0x100 == high && v % 0x100 == m[o + 1];
  }

  /** A reply is taken as an answer, good or bad, only if its bytes carry the transaction id sent, the
      response bit, exactly one question, a name that expands to the one asked up to case, and the type and
      class asked. Everything else is left waiting or given up as unreadable. */
  lemma AcceptedMeansAsked(m: seq<byte>, txid: nat, name: string, qtype: AddressType)
    requires Parse(m, txid, name, qtype).Answer? || Parse(m, txid, name, qtype).ServerFailure?
    ensures txid < 0x1_0000 && Holds(m, 0, PutU16(txid)) && m[2] >= 0x80 && Holds(m, 4, PutU16(1))
    ensures exists labels, jumps :: ExpandsWithin(m, HEADER_SIZE, labels, jumps) && Lower(Join(labels)) == Lower(name)
    ensures EndOf(m, HEADER_SIZE).Some?
    ensures Holds(m, EndOf(m, HEADER_SIZE).value, PutU16(qtype))
    ensures Holds(m, EndOf(m, HEADER_SIZE).value + 2, PutU16(CLASS_IN))
  {
    hide Decode, RecordsOf;
    DecodeMeaning(m, HEADER_SIZE);
    var labels, jumps :| ExpandsWithin(m, HEADER_SIZE, labels, jumps);
    assert Decode(m, HEADER_SIZE).value.text == Join(labels);
    var next := EndOf(m, HEADER_SIZE).value;
    U16Stands(m, 0, txid);
    U16Stands(m, 4, 1);
    U16Stands(m, next, qtype);
    U16Stands(m, next + 2, CLASS_IN);
  }

  /** The question an accepted reply carries is the one asked label for label, up to case, exactly when it has a
      label and none of its labels holds a dot: the comparison is of joined text. */
  lemma AcceptedLabels(m: seq<byte>, txid: nat, name: string, qtype: AddressType, labels: seq<string>, jumps: nat)
    requires Parse(m, txid, name, qtype).Answer? || Parse(m, txid, name, qtype).ServerFailure?
    requires Expands(m, HEADER_SIZE, labels, jumps)
    ensures LowerAll(labels) == LowerAll(Split(name)) <==> labels != [] && NoDots(labels)
  {
    hide Decode, RecordsOf;
    DecodeMeaning(m, HEADER_SIZE);
    SameTextUpToCase(labels, name);
  }

  /** The bytes the records of a section fill at least: one for the owner, ten fixed, and the data. */
  function Weight(rs: seq<RawRecord>): (n: nat) {
    if rs == [] then 0 else Weight(rs[..|rs| - 1]) + 11 + |rs[|rs| - 1].rdata|
  }

  lemma {:induction false} WeightCons(r: RawRecord, rs: seq<RawRecord>)
    ensures Weight([r] + rs) == 11 + |r.rdata| + Weight(rs)
  {
    if rs == [] {
      assert [r] + rs == [r] && Weight([]) == 0;
    } else {
      var all := [r] + rs;
      assert all[..|all| - 1] == [r] + rs[..|rs| - 1];
      WeightCons(r, rs[..|rs| - 1]);
    }
  }

  lemma {:induction false} SectionFits(m: seq<byte>, o: nat, count: nat)
    requires Section(m, o, count).Some? && o <= |m|
    ensures o + Weight(Section(m, o, count).value) <= |m| && |Section(m, o, count).value| == count
    decreases count
  {
    if count > 0 {
      var (r, next) := ReadRecord(m, o).value;
      ReadRecordSize(m, o);
      SectionFits(m, next, count - 1);
      WeightCons(r, Section(m, next, count - 1).value);
    }
  }

  function RecordBytes(qtype: AddressType): (n: nat) { if qtype == TYPE_A then 15 else 27 }

  lemma {:induction false} AnsweringFits(rs: seq<RawRecord>, i: nat, name: string, qtype: AddressType)
    requires i <= |rs|
    ensures RecordBytes(qtype) * |Answering(rs, i, name, qtype)| <= Weight(rs[..i])
  {
    if i > 0 {
      AnsweringFits(rs, i - 1, name, qtype);
      assert rs[..i][..i - 1] == rs[..i - 1];
    }
  }

  lemma SelectedFits(rs: seq<RawRecord>, name: string, qtype: AddressType)
    requires Selected(rs, name, qtype).Some?
    ensures RecordBytes(qtype) * |Selected(rs, name, qtype).value| <= Weight(rs)
  {
    AnsweringFits(rs, |rs|, name, qtype);
    assert rs[..|rs|] == rs;
  }

  /** Whatever ANCOUNT claims, the message pays 15 bytes for every A record returned and 27 for
      every AAAA, on top of the header and a one-byte question. */
  lemma ParseSize(m: seq<byte>, txid: nat, name: string, qtype: AddressType)
    requires Parse(m, txid, name, qtype).Answer?
    ensures 17 + RecordBytes(qtype) * |Parse(m, txid, name, qtype).records| <= |m|
  {
    hide Decode, Section, Selected, Answering, Weight, Lower;
    var next := CheckQuestion(m, U16(m, 4), name, qtype).next;
    DecodeMeaning(m, HEADER_SIZE);
    if Parse(m, txid, name, qtype).records != [] {
      var rs := Section(m, next, U16(m, 6)).value;
      SectionFits(m, next, U16(m, 6));
      SelectedFits(rs, Lower(name), qtype);
    }
  }

  /** Every address returned stands in a record the question reaches, and keeps its place and TTL. */
  lemma {:induction false} AnsweringSound(rs: seq<RawRecord>, i: nat, name: string, qtype: AddressType, k: nat)
    returns (at: nat)
    requires i <= |rs| && k < |Answering(rs, i, name, qtype)|
    ensures at < i && Answers(rs, at, name, qtype)
    ensures Some(Answering(rs, i, name, qtype)[k].ip) == AddressFrom(rs[at].rdata, qtype)
    ensures Answering(rs, i, name, qtype)[k].ttl == rs[at].ttl
    ensures k == |Answering(rs, at, name, qtype)|
    decreases i
  {
    if k < |Answering(rs, i - 1, name, qtype)| {
      at := AnsweringSound(rs, i - 1, name, qtype, k);
    } else {
      at := i - 1;
    }
  }

  /** Every record the question reaches is returned, at the place its predecessors leave it. */
  lemma {:induction false} AnsweringComplete(rs: seq<RawRecord>, i: nat, name: string, qtype: AddressType, at: nat)
    requires at < i <= |rs| && Answers(rs, at, name, qtype) && AddressFrom(rs[at].rdata, qtype).Some?
    ensures var k := |Answering(rs, at, name, qtype)|;
            && k < |Answering(rs, i, name, qtype)|
            && Answering(rs, i, name, qtype)[k] == Record(AddressFrom(rs[at].rdata, qtype).value, rs[at].ttl)
    decreases i
  {
    if at < i - 1 {
      AnsweringComplete(rs, i - 1, name, qtype, at);
    }
  }

  /** Every address a reply yields belongs to the family asked for and is in its range. */
  lemma AddressFromFamily(rdata: seq<byte>, qtype: AddressType)
    requires AddressFrom(rdata, qtype).Some?
    ensures var a := AddressFrom(rdata, qtype).value; ValidAddress(a) && (a.V4? <==> qtype == TYPE_A)
  {
    NumberBound(rdata);
  }

  lemma ParseFamily(m: seq<byte>, txid: nat, name: string, qtype: AddressType)
    requires Parse(m, txid, name, qtype).Answer?
    ensures forall r :: r in Parse(m, txid, name, qtype).records ==>
              ValidAddress(r.ip) && (r.ip.V4? <==> qtype == TYPE_A)
  {
    var records := Parse(m, txid, name, qtype).records;
    forall r | r in records
      ensures ValidAddress(r.ip) && (r.ip.V4? <==> qtype == TYPE_A)
    {
      var k :| 0 <= k < |records| && records[k] == r;
      var rs := Section(m, CheckQuestion(m, U16(m, 4), name, qtype).next, U16(m, 6)).value;
      var at := AnsweringSound(rs, |rs|, Lower(name), qtype, k);
      AddressFromFamily(rs[at].rdata, qtype);
    }
  }
}

/** What a reply is taken for, read off its bytes alone (RFC 1035, 4.1.1 and 4.1.2). */
module Classification {
  import opened Wire
  import opened Names
  import opened Messages

  // ---------- the bytes ----------

  /** Two bytes in network order. */
  function Pair(high: int, low: int): (v: int) { high * 0x100 + low }

  /** A twelve-byte header with this id, the response bit, and exactly one question counted. */
  predicate Headed(m: seq<byte>, txid: nat) {
    |m| >= 12 && Pair(m[0], m[1]) == txid && m[2] >= 0x80 && m[4] == 0 && m[5] == 1
  }

  /** Where the name of the question ends, if it ends at all. */
  function AfterName(m: seq<byte>): (o: nat) {
    match EndOf(m, 12) case None => |m| case Some(e) => e
  }

  /** The question can be read: its name expands within the bounds, and four more bytes are there. */
  ghost predicate QuestionReads(m: seq<byte>) {
    (exists labels, jumps :: ExpandsWithin(m, 12, labels, jumps)) && AfterName(m) + 4 <= |m|
  }

  /** The question names what was asked, up to case, with this type and class IN. */
  ghost predicate QuestionAsks(m: seq<byte>, name: string, qtype: AddressType) {
    && QuestionReads(m)
    && (exists labels, jumps :: ExpandsWithin(m, 12, labels, jumps) && Lower(Join(labels)) == Lower(name))
    && var e := AfterName(m);
       Pair(m[e], m[e + 1]) == qtype && m[e + 2] == 0 && m[e + 3] == 1
  }

  /** The reply is to this very question. */
  ghost predicate Carries(m: seq<byte>, txid: nat, name: string, qtype: AddressType) {
    Headed(m, txid) && QuestionAsks(m, name, qtype)
  }

  /** The response code, in the low four bits of the fourth byte, and the truncation bit in the third. */
  function ResponseCode(m: seq<byte>): (code: nat)
    requires |m| >= 12
  {
    m[3] % 0x10
  }

  predicate Truncated(m: seq<byte>)
    requires |m| >= 12
  {
    m[2] % 4 >= 2
  }

  /** What walking the answer section gives, as many records as the header counts. */
  ghost function SectionWalked(m: seq<byte>, name: string, qtype: AddressType): (out: Option<seq<Record>>)
    requires |m| >= 12
  {
    RecordsOf(m, AfterName(m) + 4, Pair(m[6], m[7]), name, qtype)
  }

  // ---------- the four outcomes ----------

  /** An answer: to this very question, and either a name that does not exist, which is an empty answer
      whatever follows and never a truncated one, or no error and a section that can be walked. */
  ghost predicate IsAnswer(m: seq<byte>, txid: nat, name: string, qtype: AddressType,
                           records: seq<Record>, truncated: bool)
  {
    && Carries(m, txid, name, qtype)
    && if ResponseCode(m) == 3 then records == [] && !truncated
       else ResponseCode(m) == 0 && SectionWalked(m, name, qtype) == Some(records) && truncated == Truncated(m)
  }

  ghost predicate IsServerFailure(m: seq<byte>, txid: nat, name: string, qtype: AddressType) {
    Carries(m, txid, name, qtype) && ResponseCode(m) != 0 && ResponseCode(m) != 3
  }

  ghost predicate IsWrongQuestion(m: seq<byte>, txid: nat, name: string, qtype: AddressType) {
    |m| >= 12 && (!Headed(m, txid) || (QuestionReads(m) && !QuestionAsks(m, name, qtype)))
  }

  ghost predicate IsMalformed(m: seq<byte>, txid: nat, name: string, qtype: AddressType) {
    || |m| < 12
    || (Headed(m, txid) && !QuestionReads(m))
    || (Carries(m, txid, name, qtype) && ResponseCode(m) == 0 && SectionWalked(m, name, qtype).None?)
  }

  // ---------- the proof ----------

  lemma HeaderBytes(m: seq<byte>)
    requires |m| >= 12
    ensures U16(m, 0) == Pair(m[0], m[1]) && U16(m, 6) == Pair(m[6], m[7])
    ensures U16(m, 2) < 0x8000 <==> m[2] < 0x80
    ensures U16(m, 4) == 1 <==> m[4] == 0 && m[5] == 1
    ensures U16(m, 2) % 0x10 == m[3] % 0x10
    ensures U16(m, 2) / 0x0200 % 2 == 1 <==> m[2] % 4 >= 2
  {
    var high: int, low: int := m[2], m[3];
    assert U16(m, 2) == high * 0x100 + low;
    assert U16(m, 2) / 0x0200 == high / 2;
  }

  /** The question check, on the bytes. */
  lemma QuestionBytes(m: seq<byte>, name: string, qtype: AddressType)
    requires |m| >= 12
    ensures forall count: nat :: count != 1 ==> CheckQuestion(m, count, name, qtype) == Different
    ensures var q := CheckQuestion(m, 1, name, qtype);
            && (q.Unreadable? <==> !QuestionReads(m))
            && (q == Echoed(AfterName(m) + 4) <==> QuestionAsks(m, name, qtype))
            && (q.Echoed? ==> q == Echoed(AfterName(m) + 4))
  {
    hide Decode, Expands, Lower, Join;
    DecodeMeaning(m, 12);
    if Decode(m, 12).Some? {
      var labels, jumps :| ExpandsWithin(m, 12, labels, jumps);
      assert Decode(m, 12).value.text == Join(labels);
      var e := AfterName(m);
      if e + 4 <= |m| {
        TwoBytes(m, e, qtype);
        TwoBytes(m, e + 2, 1);
      }
    }
  }

  lemma TwoBytes(m: seq<byte>, o: nat, v: nat)
    requires o + 2 <= |m|
    ensures U16(m, o) == Pair(m[o], m[o + 1])
    ensures U16(m, o) == 1 <==> m[o] == 0 && m[o + 1] == 1
  {
  }

  /** Every reply is classified by its bytes: one condition for each outcome, and no other. */
  lemma ParseMeaning(m: seq<byte>, txid: nat, name: string, qtype: AddressType)
    ensures forall records, truncated ::
              Parse(m, txid, name, qtype) == Answer(records, truncated)
              <==> IsAnswer(m, txid, name, qtype, records, truncated)
    ensures Parse(m, txid, name, qtype).ServerFailure? <==> IsServerFailure(m, txid, name, qtype)
    ensures Parse(m, txid, name, qtype).WrongQuestion? <==> IsWrongQuestion(m, txid, name, qtype)
    ensures Parse(m, txid, name, qtype).Malformed? <==> IsMalformed(m, txid, name, qtype)
  {
    hide CheckQuestion, QuestionReads, QuestionAsks, RecordsOf, U16, AfterName;
    if |m| >= 12 {
      HeaderBytes(m);
      QuestionBytes(m, name, qtype);
    }
  }

  // ---------- two codes side by side ----------

  /** A name that does not exist is an empty answer; a server failure is not. */
  lemma CodesApart(m: seq<byte>, txid: nat, name: string, qtype: AddressType)
    requires Carries(m, txid, name, qtype)
    ensures m[3] == 0x83 ==> Parse(m, txid, name, qtype) == Answer([], false)
    ensures m[3] == 0x82 ==> Parse(m, txid, name, qtype) == ServerFailure
  {
    hide Parse, Carries;
    ParseMeaning(m, txid, name, qtype);
    assert |m| >= 12 by {
      CarriesHeader(m, txid, name, qtype);
    }
  }

  lemma CarriesHeader(m: seq<byte>, txid: nat, name: string, qtype: AddressType)
    requires Carries(m, txid, name, qtype)
    ensures |m| >= 12
  {
  }
}

/** Across the layers: the stub resolver under a policy, from the datagrams an attacker may suppress to the verdict. */
module EndToEnd {
  import opened Wire
  import opened Names
  import opened Networks
  import opened Messages
  import Stub = StubResolver
  import opened Attempts
  import opened Answers
  import opened Policies
  import opened Resolving

  /** The row of one address, as `_row` builds it: the canonical text, the port, and zero flow and scope for IPv6. */
  function RowFor(ip: Address, port: int): (r: Row) {
    if ip.V4? then Row(4, SockAddr("", Some(ip), port, [])) else Row(6, SockAddr("", Some(ip), port, [0, 0]))
  }

  function RowsFor(ips: seq<Address>, port: int): (rows: seq<Row>)
    ensures |rows| == |ips|
  {
    seq(|ips|, i requires 0 <= i < |ips| => RowFor(ips[i], port))
  }

  /** What `resolve` gets from the stub resolver: rows, a gaierror, or the one exception that is neither. */
  function AnswerFrom(end: Stub.CallEnd, port: int): (answer: LookupAnswer) {
    match end
    case Rows(ips) => Infos(RowsFor(ips, port))
    case GaiError => GaiError
    case WrongQuestionError => Raises(OtherError)
  }

  /** The answer that would be given if every query were answered in full. */
  function WholeAnswer(c: Stub.Config, only: Option<Stub.Family>, full: Stub.Family -> seq<Record>, port: int)
    : (a: LookupAnswer)
  {
    var all := Complete(c.families, only, full);
    if all == [] then GaiError else Infos(RowsFor(Stub.Ips(all), port))
  }

  /** Suppression cannot change a verdict. Whatever each family's full answer set is and whichever of the
      attempts actually made the network lets through, resolving a name through the stub resolver either ends
      exactly as it would on the whole set, or fails to resolve; it never judges a proper part. */
  lemma SuppressionCannotChangeTheVerdict(
      p: Policy, c: Stub.Config, script: nat -> Stub.Exchange, host: string, port: int, w: Stub.World,
      full: Stub.Family -> seq<Record>)
    requires Encode(host).Some? ==>
               AnsweredInFull(c, script, c.families, None, StripDots(host), w.now + c.timeout, w, full)
    ensures var answer := AnswerFrom(Stub.Call(c, script, host, None, None, false, w).0, port);
            || ResolveOn(p, host, answer) == ResolveOn(p, host, WholeAnswer(c, None, full, port))
            || ResolveOn(p, host, answer) == Unresolvable
            || ResolveOn(p, host, answer) == LookupRaised(OtherError)
  {
    hide AnsweredInFull, Stub.LookupFrom, Encode, Complete, AnswersOf, PermittedOf, Stub.Ips, RowsFor;
    if Encode(host).Some? {
      LookupIsComplete(c, script, c.families, None, StripDots(host), w.now + c.timeout, w, full);
    }
  }

  /** A resolver's records judged: under `reject` a name resolves exactly when there is one and every one of
      them is permitted. */
  lemma RecordsVerdict(p: Policy, host: string, port: int, all: seq<Record>)
    requires p.onPartialBlock.Reject?
    ensures ResolveOn(p, host, if all == [] then GaiError else Infos(RowsFor(Stub.Ips(all), port))).Resolved?
            <==> all != [] && forall i :: 0 <= i < |all| ==> Permits(p, all[i].ip)
  {
    hide Permits, ResolveOn;
    if all != [] {
      var rows := RowsFor(Stub.Ips(all), port);
      ResolveMeaning(p, host, rows);
      assert rows[0] in rows;
      forall i | 0 <= i < |all|
        ensures rows[i] in rows && rows[i].sockaddr.host == Some(all[i].ip)
      {
      }
    } else {
      NothingResolves(p, host);
    }
  }

  /** With every query answered in full the verdict reads off the records: under `reject` a name resolves
      exactly when it has an address and every A and AAAA record it has is permitted. */
  lemma WholeVerdict(p: Policy, c: Stub.Config, host: string, port: int, full: Stub.Family -> seq<Record>)
    requires p.onPartialBlock.Reject?
    ensures var all := Complete(c.families, None, full);
            ResolveOn(p, host, WholeAnswer(c, None, full, port)).Resolved?
            <==> all != [] && forall i :: 0 <= i < |all| ==> Permits(p, all[i].ip)
  {
    hide Permits, Complete, ResolveOn, RowsFor;
    RecordsVerdict(p, host, port, Complete(c.families, None, full));
  }

  /** From the datagrams to the verdict, when nothing is suppressed: if every family has an attempt made that is
      answered, the name resolves exactly when those records are not none and every one of them is permitted. */
  lemma AnsweredVerdict(p: Policy, c: Stub.Config, script: nat -> Stub.Exchange, host: string, port: int,
                        w: Stub.World, answers: seq<seq<Record>>)
    requires p.onPartialBlock.Reject? && Encode(host).Some?
    requires Gathered(c, script, c.families, None, StripDots(host), w.now + c.timeout, w, answers)
    ensures var all := Joined(answers);
            ResolveOn(p, host, AnswerFrom(Stub.Call(c, script, host, None, None, false, w).0, port)).Resolved?
            <==> all != [] && forall i :: 0 <= i < |all| ==> Permits(p, all[i].ip)
  {
    hide Permits, ResolveOn, RowsFor, Gathered, Joined, Encode, StripDots, Stub.Call, Stalls;
    var all := Joined(answers);
    RecordsVerdict(p, host, port, all);
    CallMeaning(c, script, host, None, None, false, w);
    if all == [] {
      assert EndsInGaiError(c, script, host, None, None, false, w);
    } else {
      assert AddressesOf(all, Stub.Ips(all));
      assert EndsInRows(c, script, host, None, None, false, w, Stub.Ips(all));
    }
  }

  lemma NothingResolves(p: Policy, host: string)
    ensures !ResolveOn(p, host, GaiError).Resolved?
  {
  }
}

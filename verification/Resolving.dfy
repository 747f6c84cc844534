/** One lookup, every answer validated: which addresses a name may be reached at. */
module Resolving {
  import opened Wire
  import opened Networks
  import opened Policies

  /** A socket address as the resolver gave it: text that `ip_address` reads as `host` or refuses, a port,
      and for IPv6 the flow label and scope. */
  datatype SockAddr = SockAddr(spelling: string, host: Option<Address>, port: int, extra: seq<int>)

  /** One row of an answer; it is also the key duplicates are found by. */
  datatype Row = Row(family: int, sockaddr: SockAddr)

  datatype Endpoint = Endpoint(family: int, sockaddr: SockAddr, ip: Address, hostname: string)

  /** An exception as the callers tell them apart: TimeoutError, another OSError, or anything else. */
  datatype Fault = Timeout | OsError | OtherError

  datatype LookupAnswer = Infos(rows: seq<Row>) | GaiError | Raises(fault: Fault)

  /** `socket.gaierror` is an OSError that is not a TimeoutError; ValueError is neither. */
  datatype ResolveEnd =
    | Resolved(addresses: seq<Endpoint>)
    | Refused
    | Unresolvable
    | NotAnAddress
    | LookupRaised(fault: Fault)

  /** A resolver that may answer differently every time it is asked. */
  class Resolver {
    const script: nat -> LookupAnswer
    var asked: nat

    constructor (script: nat -> LookupAnswer)
      ensures this.script == script && asked == 0
    {
      this.script := script;
      asked := 0;
    }

    method Lookup() returns (answer: LookupAnswer)
      modifies this
      ensures asked == old(asked) + 1 && answer == script(old(asked))
    {
      answer := script(asked);
      asked := asked + 1;
    }
  }

  // ---------- rows to addresses ----------

  predicate Readable(rows: seq<Row>) {
    forall i :: 0 <= i < |rows| ==> rows[i].sockaddr.host.Some?
  }

  /** The rows without those already seen, in order. */
  function Distinct(rows: seq<Row>): (out: seq<Row>)
    ensures forall r :: r in out <==> r in rows
    ensures forall i, j :: 0 <= i < j < |out| ==> out[i] != out[j]
  {
    if rows == [] then []
    else
      var before, last := rows[..|rows| - 1], rows[|rows| - 1];
      assert rows == before + [last];
      if last in before then Distinct(before) else Distinct(before) + [last]
  }

  function EndpointOf(r: Row, hostname: string): (e: Endpoint)
    requires r.sockaddr.host.Some?
  {
    Endpoint(r.family, r.sockaddr, r.sockaddr.host.value, hostname)
  }

  function Endpoints(rows: seq<Row>, hostname: string): (out: seq<Endpoint>)
    requires forall r :: r in rows ==> r.sockaddr.host.Some?
    ensures |out| == |rows|
  {
    seq(|rows|, i requires 0 <= i < |rows| => EndpointOf(rows[i], hostname))
  }

  function AnswersOf(rows: seq<Row>, hostname: string): (out: Option<seq<Endpoint>>)
  {
    if !Readable(rows) then None
    else Some(Endpoints(Distinct(rows), hostname))
  }

  method AddressesFrom(rows: seq<Row>, hostname: string) returns (out: Option<seq<Endpoint>>)
    ensures out == AnswersOf(rows, hostname)
  {
    var seen: set<Row> := {};
    var found: seq<Endpoint> := [];
    for i := 0 to |rows|
      invariant seen == set r | r in rows[..i]
      invariant Readable(rows[..i])
      invariant Some(found) == AnswersOf(rows[..i], hostname)
    {
      var key := rows[i];
      assert rows[..i + 1] == rows[..i] + [key];
      assert rows[..i + 1][..|rows[..i + 1]| - 1] == rows[..i];
      if key in seen {
        assert Readable(rows[..i + 1]);
        continue;
      }
      seen := seen + {key};
      if key.sockaddr.host.None? {
        return None;
      }
      found := found + [EndpointOf(key, hostname)];
      assert Readable(rows[..i + 1]);
      assert Endpoints(Distinct(rows[..i]) + [key], hostname) == found;
    }
    assert rows[..|rows|] == rows;
    return Some(found);
  }

  // ---------- the verdict ----------

  function PermittedOf(p: Policy, answers: seq<Endpoint>): (out: seq<Endpoint>)
    ensures forall e :: e in out <==> e in answers && Permits(p, e.ip)
    ensures |out| <= |answers| && (|out| == |answers| ==> out == answers)
  {
    if answers == [] then []
    else
      var before, last := answers[..|answers| - 1], answers[|answers| - 1];
      assert answers == before + [last];
      if Permits(p, last.ip) then PermittedOf(p, before) + [last] else PermittedOf(p, before)
  }

  lemma {:induction false} AllPermitted(p: Policy, answers: seq<Endpoint>)
    ensures PermittedOf(p, answers) == answers <==> forall e :: e in answers ==> Permits(p, e.ip)
  {
    hide Permits;
    if answers != [] {
      var before, last := answers[..|answers| - 1], answers[|answers| - 1];
      assert answers == before + [last];
      AllPermitted(p, before);
    }
  }

  /** What one answer of the resolver leads to. */
  function ResolveOn(p: Policy, hostname: string, answer: LookupAnswer): (end: ResolveEnd) {
    match answer
    case GaiError => Unresolvable
    case Raises(fault) => LookupRaised(fault)
    case Infos(rows) =>
      match AnswersOf(rows, hostname)
      case None => NotAnAddress
      case Some(answers) =>
        if answers == [] then Unresolvable
        else if PermittedOf(p, answers) == [] then Refused
        else if PermittedOf(p, answers) != answers && p.onPartialBlock.Reject? then Refused
        else Resolved(PermittedOf(p, answers))
  }

  /** Resolution asks once, and everything it returns comes from that one answer. */
  method Resolve(p: Policy, hostname: string, resolver: Resolver) returns (end: ResolveEnd)
    modifies resolver
    ensures resolver.asked == old(resolver.asked) + 1
    ensures end == ResolveOn(p, hostname, resolver.script(old(resolver.asked)))
  {
    hide PermittedOf, AnswersOf;
    var infos := resolver.Lookup();
    if infos.GaiError? {
      return Unresolvable;
    }
    if infos.Raises? {
      return LookupRaised(infos.fault);
    }
    var answers := AddressesFrom(infos.rows, hostname);
    if answers.None? {
      return NotAnAddress;
    }
    if answers.value == [] {
      return Unresolvable;
    }
    var permitted, refusals := Partition(p, answers.value);
    if permitted == [] {
      return Refused;
    }
    if refusals > 0 && p.onPartialBlock.Reject? {
      return Refused;
    }
    return Resolved(permitted);
  }

  /** Every answer is checked, whatever the others turned out to be. */
  method Partition(p: Policy, answers: seq<Endpoint>) returns (permitted: seq<Endpoint>, refusals: nat)
    ensures permitted == PermittedOf(p, answers)
    ensures refusals > 0 <==> permitted != answers
  {
    hide Permits, PermittedOf;
    PermittedStep(p, answers, 0);
    permitted, refusals := [], 0;
    for i := 0 to |answers|
      invariant permitted == PermittedOf(p, answers[..i])
      invariant refusals == i - |permitted|
    {
      var answer := answers[i];
      PermittedStep(p, answers, i);
      var ok := CheckAddress(p, answer.ip);
      if ok {
        permitted := permitted + [answer];
      } else {
        refusals := refusals + 1;
      }
    }
    assert answers[..|answers|] == answers;
  }

  lemma PermittedStep(p: Policy, answers: seq<Endpoint>, i: nat)
    ensures PermittedOf(p, []) == []
    ensures i < |answers| ==>
              PermittedOf(p, answers[..i + 1])
              == PermittedOf(p, answers[..i]) + if Permits(p, answers[i].ip) then [answers[i]] else []
  {
    hide Permits;
    if i < |answers| {
      assert answers[..i + 1][..i] == answers[..i];
    }
  }

  lemma AnswersMeaning(rows: seq<Row>, hostname: string)
    requires Readable(rows)
    ensures forall e :: e in AnswersOf(rows, hostname).value <==> exists r :: r in rows && e == EndpointOf(r, hostname)
  {
    hide Distinct;
    var answers := AnswersOf(rows, hostname).value;
    forall r | r in rows
      ensures EndpointOf(r, hostname) in answers
    {
      var i :| 0 <= i < |Distinct(rows)| && Distinct(rows)[i] == r;
      assert answers[i] == EndpointOf(r, hostname);
    }
    forall e | e in answers
      ensures exists r :: r in rows && e == EndpointOf(r, hostname)
    {
      var i :| 0 <= i < |answers| && answers[i] == e;
      assert Distinct(rows)[i] in rows;
    }
  }

  /** Where a row first stands in an answer. */
  function FirstAt(rows: seq<Row>, r: Row): (i: nat)
    requires r in rows
    ensures i < |rows| && rows[i] == r && forall k :: 0 <= k < i ==> rows[k] != r
  {
    if rows[0] == r then 0
    else
      assert rows == [rows[0]] + rows[1..];
      1 + FirstAt(rows[1..], r)
  }

  function RowBehind(e: Endpoint): (r: Row) { Row(e.family, e.sockaddr) }

  /** The endpoints stand in the order their rows were first given. */
  ghost predicate InFirstSeenOrder(rows: seq<Row>, es: seq<Endpoint>) {
    && (forall i :: 0 <= i < |es| ==> RowBehind(es[i]) in rows)
    && forall i, j :: 0 <= i < j < |es| ==> FirstAt(rows, RowBehind(es[i])) < FirstAt(rows, RowBehind(es[j]))
  }

  /** Among the first `n` rows an earlier mention beats a later one. */
  lemma FirstAtBound(rows: seq<Row>, r: Row, n: nat)
    requires n <= |rows|
    ensures r in rows[..n] ==> r in rows && FirstAt(rows, r) < n
    ensures r !in rows[..n] && n < |rows| && rows[n] == r ==> FirstAt(rows, r) == n
  {
    if r in rows[..n] {
      var k :| 0 <= k < n && rows[k] == r;
    } else if n < |rows| && rows[n] == r {
      assert forall k :: 0 <= k < n ==> rows[k] in rows[..n];
    }
  }

  lemma {:induction false} DistinctInOrder(rows: seq<Row>, whole: seq<Row>, hostname: string)
    requires Readable(rows) && rows <= whole
    ensures (forall r :: r in Distinct(rows) ==> r.sockaddr.host.Some?)
    ensures InFirstSeenOrder(whole, Endpoints(Distinct(rows), hostname))
  {
    hide FirstAt, InFirstSeenOrder;
    if rows == [] {
      NothingInOrder(whole);
    } else {
      var before, last := rows[..|rows| - 1], rows[|rows| - 1];
      DistinctInOrder(before, whole, hostname);
      if last !in before {
        var found := Distinct(before);
        NewRowBehind(rows, whole, hostname);
        AppendInOrder(whole, Endpoints(found, hostname), EndpointOf(last, hostname));
        assert Distinct(rows) == found + [last];
        assert Endpoints(Distinct(rows), hostname) == Endpoints(found, hostname) + [EndpointOf(last, hostname)];
      }
    }
  }

  lemma NothingInOrder(rows: seq<Row>)
    ensures InFirstSeenOrder(rows, [])
  {
  }

  lemma NewRowBehind(rows: seq<Row>, whole: seq<Row>, hostname: string)
    requires rows != [] && rows <= whole && Readable(rows)
    requires var before := rows[..|rows| - 1];
             rows[|rows| - 1] !in before && forall r :: r in Distinct(before) ==> r.sockaddr.host.Some?
    ensures var before, last := rows[..|rows| - 1], rows[|rows| - 1];
            Behind(whole, Endpoints(Distinct(before), hostname), EndpointOf(last, hostname))
  {
    hide FirstAt, Distinct;
    var before, last := rows[..|rows| - 1], rows[|rows| - 1];
    assert whole[..|before|] == before;
    FirstAtBound(whole, last, |before|);
    var es := Endpoints(Distinct(before), hostname);
    forall e | e in es
      ensures RowBehind(e) in whole && FirstAt(whole, RowBehind(e)) < |before|
    {
      var i :| 0 <= i < |es| && es[i] == e;
      assert RowBehind(e) == Distinct(before)[i] && Distinct(before)[i] in before;
      FirstAtBound(whole, RowBehind(e), |before|);
    }
  }

  lemma {:induction false} PermittedInOrder(p: Policy, rows: seq<Row>, answers: seq<Endpoint>)
    requires InFirstSeenOrder(rows, answers)
    ensures InFirstSeenOrder(rows, PermittedOf(p, answers))
  {
    hide Permits, InFirstSeenOrder;
    if answers != [] {
      var front, last := answers[..|answers| - 1], answers[|answers| - 1];
      LastInOrder(rows, front, last, answers);
      PermittedInOrder(p, rows, front);
      AppendInOrder(rows, PermittedOf(p, front), last);
    }
  }

  /** This row first stands behind all of those. */
  ghost predicate Behind(rows: seq<Row>, es: seq<Endpoint>, last: Endpoint) {
    && RowBehind(last) in rows
    && forall e :: e in es ==> RowBehind(e) in rows && FirstAt(rows, RowBehind(e)) < FirstAt(rows, RowBehind(last))
  }

  lemma LastInOrder(rows: seq<Row>, front: seq<Endpoint>, last: Endpoint, all: seq<Endpoint>)
    requires all != [] && front == all[..|all| - 1] && last == all[|all| - 1] && InFirstSeenOrder(rows, all)
    ensures InFirstSeenOrder(rows, front) && Behind(rows, front, last)
  {
    hide FirstAt, RowBehind;
    forall e | e in front
      ensures RowBehind(e) in rows && FirstAt(rows, RowBehind(e)) < FirstAt(rows, RowBehind(last))
    {
      var i :| 0 <= i < |front| && front[i] == e;
      assert all[i] == e;
    }
  }

  lemma AppendInOrder(rows: seq<Row>, es: seq<Endpoint>, last: Endpoint)
    requires InFirstSeenOrder(rows, es) && Behind(rows, es, last)
    ensures InFirstSeenOrder(rows, es + [last])
  {
    hide FirstAt, RowBehind;
    var all := es + [last];
    forall i | 0 <= i < |all|
      ensures RowBehind(all[i]) in rows
      ensures i < |es| ==> all[i] in es
    {
    }
  }

  /** Addresses come back in the resolver's own order, each at its first mention. */
  lemma ResolveKeepsOrder(p: Policy, hostname: string, rows: seq<Row>)
    requires ResolveOn(p, hostname, Infos(rows)).Resolved?
    ensures InFirstSeenOrder(rows, ResolveOn(p, hostname, Infos(rows)).addresses)
  {
    hide InFirstSeenOrder, PermittedOf, Distinct;
    DistinctInOrder(rows, rows, hostname);
    PermittedInOrder(p, rows, AnswersOf(rows, hostname).value);
  }

  /** The verdict on a whole answer: under `reject` a name resolves exactly when every row is readable and
      permitted; under `drop` when every row is readable and some row is permitted. What is returned is
      never empty, all of it permitted, each address once, and under either rule nothing permitted is lost. */
  lemma ResolveMeaning(p: Policy, hostname: string, rows: seq<Row>)
    ensures var end := ResolveOn(p, hostname, Infos(rows));
            && (end.Resolved? <==>
                  && Readable(rows)
                  && (exists r :: r in rows && Permits(p, r.sockaddr.host.value))
                  && (p.onPartialBlock.Reject? ==> forall r :: r in rows ==> Permits(p, r.sockaddr.host.value)))
            && (end.Resolved? ==>
                  && end.addresses != []
                  && (forall e :: e in end.addresses <==>
                        exists r :: r in rows && e == EndpointOf(r, hostname) && Permits(p, e.ip)))
  {
    hide Permits, PermittedOf, Distinct, Endpoints;
    if Readable(rows) {
      AnswersMeaning(rows, hostname);
      AllPermitted(p, AnswersOf(rows, hostname).value);
      var answers := AnswersOf(rows, hostname).value;
      var kept := PermittedOf(p, answers);
      forall r | r in rows
        ensures EndpointOf(r, hostname) in answers
        ensures Permits(p, r.sockaddr.host.value) <==> EndpointOf(r, hostname) in kept
      {
      }
      if kept != [] {
        assert kept[0] in kept;
      }
    }
  }

  lemma NoRows(hostname: string)
    ensures AnswersOf([], hostname) == Some([])
  {
  }

  /** The other ends, each by the answer alone: nothing to be had, a row that is no address, an exception passed
      on, and a refusal, which takes readable rows and either none permitted or, under `reject`, one that is not. */
  lemma ResolveFailures(p: Policy, hostname: string, answer: LookupAnswer)
    ensures var end := ResolveOn(p, hostname, answer);
            && (end.Unresolvable? <==> answer.GaiError? || (answer.Infos? && answer.rows == []))
            && (end.NotAnAddress? <==> answer.Infos? && !Readable(answer.rows))
            && (forall fault :: end == LookupRaised(fault) <==> answer == Raises(fault))
            && (end.Refused? <==>
                  && answer.Infos? && Readable(answer.rows) && answer.rows != []
                  && (|| (forall r :: r in answer.rows ==> !Permits(p, r.sockaddr.host.value))
                      || (p.onPartialBlock.Reject?
                          && exists r :: r in answer.rows && !Permits(p, r.sockaddr.host.value))))
  {
    hide Permits, PermittedOf, Distinct, Endpoints;
    if answer.Infos? && Readable(answer.rows) {
      ResolveMeaning(p, hostname, answer.rows);
      AnswersMeaning(answer.rows, hostname);
      var answers := AnswersOf(answer.rows, hostname).value;
      if answer.rows != [] {
        assert answer.rows[0] in answer.rows;
        assert EndpointOf(answer.rows[0], hostname) in answers;
      } else {
        NoRows(hostname);
      }
    }
  }
}

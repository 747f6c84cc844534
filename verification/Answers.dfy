/** How one resolver call ends, by the attempts it makes and what arrives on each: rows, a gaierror, or the
    exception that is neither. */
module Answers {
  import opened Wire
  import opened Names
  import opened Networks
  import opened Messages
  import opened StubResolver
  import opened ResolverBounds
  import opened Attempts

  /** Every family in scope has an attempt made that is answered, each query beginning where the one before it
      was answered; `answers` holds their records, place by place, and nothing for a family out of scope. */
  ghost predicate Gathered(c: Config, script: nat -> Exchange, families: seq<Family>, only: Option<Family>,
                           name: string, deadline: real, w: World, answers: seq<seq<Record>>)
    decreases |families|
  {
    && |answers| == |families|
    && (families != [] ==>
          if !InScope(families[0], only) then
            answers[0] == [] && Gathered(c, script, families[1..], only, name, deadline, w, answers[1..])
          else
            var a := AskingOf(c, name, families[0], deadline);
            exists v :: AnsweredIn(script, |c.nameservers| * c.attempts, w, a, v, answers[0])
              && Gathered(c, script, families[1..], only, name, deadline, Ask(script(v.udp), v, a).1, answers[1..]))
  }

  /** No attempt this query makes is answered or escapes. */
  ghost predicate Unanswered(script: nat -> Exchange, left: nat, w: World, a: Asking) {
    forall v :: Attempted(script, left, w, a, v) ==>
                  !AnsweredAtAll(script(v.udp), v.now, a) && !Escapes(script(v.udp), v.now, a)
  }

  /** Some family in scope is not answered, and every one in scope before it is. */
  ghost predicate Stalls(c: Config, script: nat -> Exchange, families: seq<Family>, only: Option<Family>,
                         name: string, deadline: real, w: World)
    decreases |families|
  {
    && families != []
    && if !InScope(families[0], only) then Stalls(c, script, families[1..], only, name, deadline, w)
       else
         var a := AskingOf(c, name, families[0], deadline);
         || Unanswered(script, |c.nameservers| * c.attempts, w, a)
         || exists v, records :: AnsweredIn(script, |c.nameservers| * c.attempts, w, a, v, records)
              && Stalls(c, script, families[1..], only, name, deadline, Ask(script(v.udp), v, a).1)
  }

  /** The records of every family, one after another. */
  function Joined(answers: seq<seq<Record>>): (all: seq<Record>) {
    if answers == [] then [] else answers[0] + Joined(answers[1..])
  }

  /** These are the addresses of those records, place by place. */
  predicate AddressesOf(records: seq<Record>, ips: seq<Address>) {
    |ips| == |records| && forall i :: 0 <= i < |ips| ==> ips[i] == records[i].ip
  }

  // ---------- a query and a lookup ----------

  lemma QueryGivesUp(script: nat -> Exchange, left: nat, w: World, a: Asking)
    ensures QueryFrom(script, left, w, a).0.GaveUp? <==> Unanswered(script, left, w, a)
  {
    hide QueryFrom, Attempted, Ask, AnsweredWith, Escapes;
    var (end, next) := QueryFrom(script, left, w, a);
    QueryEscapes(script, left, w, a);
    if end.Records? {
      QueryAnswers(script, left, w, a, end.records, next);
    }
    forall v | Attempted(script, left, w, a, v)
      ensures Ask(script(v.udp), v, a).0.Foreign? <==> Escapes(script(v.udp), v.now, a)
      ensures AnsweredAtAll(script(v.udp), v.now, a) ==> end.Records?
    {
      ForeignOnlyOverTcp(script(v.udp), v, a);
      if AnsweredAtAll(script(v.udp), v.now, a) {
        var records :| AnsweredWith(script(v.udp), v.now, a, records);
        QueryAnswers(script, left, w, a, records, Ask(script(v.udp), v, a).1);
        assert AnsweredIn(script, left, w, a, v, records);
      }
    }
  }

  lemma {:induction false} LookupFinds(c: Config, script: nat -> Exchange, families: seq<Family>, only: Option<Family>,
                                       name: string, deadline: real, w: World, answers: seq<seq<Record>>)
    requires Gathered(c, script, families, only, name, deadline, w, answers)
    ensures LookupFrom(c, script, families, only, name, deadline, w).0 == Found(Joined(answers))
    decreases |families|
  {
    hide QueryFrom, Ask, AnsweredIn;
    if families != [] {
      if InScope(families[0], only) {
        var n: nat, a := |c.nameservers| * c.attempts, AskingOf(c, name, families[0], deadline);
        var v :| AnsweredIn(script, n, w, a, v, answers[0])
          && Gathered(c, script, families[1..], only, name, deadline, Ask(script(v.udp), v, a).1, answers[1..]);
        QueryAnswers(script, n, w, a, answers[0], Ask(script(v.udp), v, a).1);
        LookupFinds(c, script, families[1..], only, name, deadline, Ask(script(v.udp), v, a).1, answers[1..]);
      } else {
        LookupFinds(c, script, families[1..], only, name, deadline, w, answers[1..]);
        assert [] + Joined(answers[1..]) == Joined(answers[1..]);
      }
    }
  }

  lemma {:induction false} LookupFound(c: Config, script: nat -> Exchange, families: seq<Family>, only: Option<Family>,
                                       name: string, deadline: real, w: World)
    returns (answers: seq<seq<Record>>)
    requires LookupFrom(c, script, families, only, name, deadline, w).0.Found?
    ensures Gathered(c, script, families, only, name, deadline, w, answers)
    decreases |families|
  {
    hide QueryFrom, Ask, AnsweredIn;
    if families == [] {
      answers := [];
    } else if InScope(families[0], only) {
      var n: nat, a := |c.nameservers| * c.attempts, AskingOf(c, name, families[0], deadline);
      var (end, next) := QueryFrom(script, n, w, a);
      QueryAnswers(script, n, w, a, end.records, next);
      var later := LookupFound(c, script, families[1..], only, name, deadline, next);
      answers := [end.records] + later;
      assert answers[1..] == later;
    } else {
      var later := LookupFound(c, script, families[1..], only, name, deadline, w);
      answers := [[]] + later;
      assert answers[1..] == later;
    }
  }

  lemma {:induction false} LookupStalls(c: Config, script: nat -> Exchange, families: seq<Family>, only: Option<Family>,
                                        name: string, deadline: real, w: World)
    ensures LookupFrom(c, script, families, only, name, deadline, w).0.NoAnswer?
            <==> Stalls(c, script, families, only, name, deadline, w)
    ensures !LookupFrom(c, script, families, only, name, deadline, w).0.NoName?
    decreases |families|
  {
    hide QueryFrom, Ask, AnsweredIn, Unanswered;
    if families != [] {
      if InScope(families[0], only) {
        var n: nat, a := |c.nameservers| * c.attempts, AskingOf(c, name, families[0], deadline);
        var (end, next) := QueryFrom(script, n, w, a);
        QueryGivesUp(script, n, w, a);
        if end.Records? {
          QueryAnswers(script, n, w, a, end.records, next);
          LookupStalls(c, script, families[1..], only, name, deadline, next);
        }
        forall v, records | AnsweredIn(script, n, w, a, v, records)
          ensures QueryFrom(script, n, w, a) == (Records(records), Ask(script(v.udp), v, a).1)
        {
          QueryAnswers(script, n, w, a, records, Ask(script(v.udp), v, a).1);
        }
      } else {
        LookupStalls(c, script, families[1..], only, name, deadline, w);
      }
    }
  }

  // ---------- a call ----------

  /** The rows a call returns: the literal's own, or, when the name may be looked up and can be asked, one for
      every record gathered, in the configured order, provided there is one. */
  ghost predicate EndsInRows(c: Config, script: nat -> Exchange, host: string, literal: Option<Address>,
                             only: Option<Family>, numericOnly: bool, w: World, ips: seq<Address>)
  {
    if literal.Some? then ips == [literal.value]
    else
      && !numericOnly && Encode(host).Some? && ips != []
      && exists answers :: AddressesOf(Joined(answers), ips)
           && Gathered(c, script, c.families, only, StripDots(host), w.now + c.timeout, w, answers)
  }

  /** When a call fails as it is documented to: the name may not be looked up or cannot be asked, or some family
      in scope is not answered, or all are and there is no record. */
  ghost predicate EndsInGaiError(c: Config, script: nat -> Exchange, host: string, literal: Option<Address>,
                                 only: Option<Family>, numericOnly: bool, w: World)
  {
    && literal.None?
    && (|| numericOnly
        || Encode(host).None?
        || Stalls(c, script, c.families, only, StripDots(host), w.now + c.timeout, w)
        || exists answers :: Joined(answers) == []
             && Gathered(c, script, c.families, only, StripDots(host), w.now + c.timeout, w, answers))
  }

  /** How every call ends: in rows, in a gaierror, or, by `Attempts.CallEscapes`, in the third way and in no other. */
  lemma CallMeaning(c: Config, script: nat -> Exchange, host: string, literal: Option<Address>, only: Option<Family>,
                    numericOnly: bool, w: World)
    ensures forall ips :: Call(c, script, host, literal, only, numericOnly, w).0 == Rows(ips)
                          <==> EndsInRows(c, script, host, literal, only, numericOnly, w, ips)
    ensures Call(c, script, host, literal, only, numericOnly, w).0.GaiError?
            <==> EndsInGaiError(c, script, host, literal, only, numericOnly, w)
  {
    hide Call, EndsInRows, EndsInGaiError;
    forall ips
      ensures Call(c, script, host, literal, only, numericOnly, w).0 == Rows(ips)
              <==> EndsInRows(c, script, host, literal, only, numericOnly, w, ips)
    {
      RowsMeaning(c, script, host, literal, only, numericOnly, w, ips);
    }
    GaiErrorMeaning(c, script, host, literal, only, numericOnly, w);
  }

  lemma RowsMeaning(c: Config, script: nat -> Exchange, host: string, literal: Option<Address>, only: Option<Family>,
                    numericOnly: bool, w: World, ips: seq<Address>)
    ensures Call(c, script, host, literal, only, numericOnly, w).0 == Rows(ips)
            <==> EndsInRows(c, script, host, literal, only, numericOnly, w, ips)
  {
    hide LookupFrom, Gathered, Encode, StripDots, Joined;
    var name, deadline := StripDots(host), w.now + c.timeout;
    if literal.None? && !numericOnly && Encode(host).Some? {
      if Call(c, script, host, literal, only, numericOnly, w).0 == Rows(ips) {
        var answers := LookupFound(c, script, c.families, only, name, deadline, w);
        LookupFinds(c, script, c.families, only, name, deadline, w, answers);
        assert AddressesOf(Joined(answers), ips);
      }
      if EndsInRows(c, script, host, literal, only, numericOnly, w, ips) {
        var answers :| AddressesOf(Joined(answers), ips)
          && Gathered(c, script, c.families, only, name, deadline, w, answers);
        LookupFinds(c, script, c.families, only, name, deadline, w, answers);
        assert ips == Ips(Joined(answers));
      }
    }
  }

  lemma GaiErrorMeaning(c: Config, script: nat -> Exchange, host: string, literal: Option<Address>,
                        only: Option<Family>, numericOnly: bool, w: World)
    ensures Call(c, script, host, literal, only, numericOnly, w).0.GaiError?
            <==> EndsInGaiError(c, script, host, literal, only, numericOnly, w)
  {
    hide LookupFrom, Gathered, Stalls, Encode, StripDots, Joined;
    var name, deadline := StripDots(host), w.now + c.timeout;
    if literal.None? && !numericOnly && Encode(host).Some? {
      LookupStalls(c, script, c.families, only, name, deadline, w);
      var end := LookupFrom(c, script, c.families, only, name, deadline, w).0;
      if end == Found([]) {
        var answers := LookupFound(c, script, c.families, only, name, deadline, w);
        LookupFinds(c, script, c.families, only, name, deadline, w, answers);
        assert Joined(answers) == [] && Gathered(c, script, c.families, only, name, deadline, w, answers);
      } else {
        forall answers | Gathered(c, script, c.families, only, name, deadline, w, answers)
          ensures Joined(answers) != []
        {
          LookupFinds(c, script, c.families, only, name, deadline, w, answers);
        }
      }
    }
  }

  // ---------- families ----------

  lemma AnswerFamily(x: Exchange, now: real, a: Asking, records: seq<Record>)
    requires AnsweredWith(x, now, a, records)
    ensures forall r :: r in records ==> ValidAddress(r.ip) && (r.ip.V4? <==> a.qtype == TYPE_A)
  {
    hide Parse, GenuineAt, Delivered, ValidAddress;
    var i: nat :| GenuineAt(x, now, a, i)
      && (|| ParsedAt(x, a, i) == Answer(records, false)
          || (ParsedAt(x, a, i).Answer? && ParsedAt(x, a, i).truncated
              && TcpAnswers(x, TcpStart(x, now, i), a, records)));
    if ParsedAt(x, a, i) == Answer(records, false) {
      ParseFamily(x.udp.inbox[i].data, x.txid, a.name, a.qtype);
    } else {
      ParseFamily(Delivered(x.tcp, TcpStart(x, now, i), a).value, x.txid, a.name, a.qtype);
    }
  }

  /** What is gathered for a family is of that family: IPv6 addresses for AF_INET6 and IPv4 ones for AF_INET. */
  lemma {:induction false} GatheredFamilies(c: Config, script: nat -> Exchange, families: seq<Family>,
                                            only: Option<Family>, name: string, deadline: real, w: World,
                                            answers: seq<seq<Record>>, k: nat)
    requires Gathered(c, script, families, only, name, deadline, w, answers) && k < |answers|
    ensures forall r :: r in answers[k] ==> ValidAddress(r.ip) && (r.ip.V6? <==> families[k] == Inet6)
    decreases |families|
  {
    hide Ask, AnsweredWith, Attempted, ValidAddress;
    var a, next := AskingOf(c, name, families[0], deadline), w;
    if InScope(families[0], only) {
      var v :| AnsweredIn(script, |c.nameservers| * c.attempts, w, a, v, answers[0])
        && Gathered(c, script, families[1..], only, name, deadline, Ask(script(v.udp), v, a).1, answers[1..]);
      next := Ask(script(v.udp), v, a).1;
      AnswerFamily(script(v.udp), v.now, a, answers[0]);
    }
    if k > 0 {
      GatheredFamilies(c, script, families[1..], only, name, deadline, next, answers[1..], k - 1);
    }
  }
}

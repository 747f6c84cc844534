/** The attempts one resolver call makes, and what hangs on each of them: what escapes, what overruns the
    deadline, and why an answer is complete. */
module Attempts {
  import opened Wire
  import opened Names
  import opened Networks
  import opened Messages
  import opened Replies
  import opened StubResolver
  import opened ResolverBounds

  // ---------- which attempts are made ----------

  /** A query makes an attempt in world `v`: every attempt before it failed in a way that is tried again. */
  ghost predicate Attempted(script: nat -> Exchange, left: nat, w: World, a: Asking, v: World)
    decreases left
  {
    && left > 0 && w.now < a.deadline
    && (v == w
        || (Retried(Ask(script(w.udp), w, a).0) && Attempted(script, left - 1, Ask(script(w.udp), w, a).1, a, v)))
  }

  /** A lookup asks about family `f` in world `v`: every family in scope before it was answered. */
  ghost predicate Made(c: Config, script: nat -> Exchange, families: seq<Family>, only: Option<Family>,
                       name: string, deadline: real, w: World, f: Family, v: World)
    decreases |families|
  {
    && families != []
    && if !InScope(families[0], only) then Made(c, script, families[1..], only, name, deadline, w, f, v)
       else
         var a := AskingOf(c, name, families[0], deadline);
         var (end, next) := QueryFrom(script, |c.nameservers| * c.attempts, w, a);
         || (f == families[0] && Attempted(script, |c.nameservers| * c.attempts, w, a, v))
         || (end.Records? && Made(c, script, families[1..], only, name, deadline, next, f, v))
  }

  /** One resolver call asks about family `f` in world `v`. */
  ghost predicate CallMakes(c: Config, script: nat -> Exchange, host: string, literal: Option<Address>,
                            only: Option<Family>, numericOnly: bool, w: World, f: Family, v: World)
  {
    && literal.None? && !numericOnly && Encode(host).Some?
    && Made(c, script, c.families, only, StripDots(host), w.now + c.timeout, w, f, v)
  }

  /** What one attempt of a call asks. */
  function CallAsks(c: Config, host: string, w: World, f: Family): (a: Asking) {
    AskingOf(c, StripDots(host), f, w.now + c.timeout)
  }

  // ---------- one attempt, by what arrives ----------

  /** The datagram at `i` is the first that is not for another question, and came in time. */
  ghost predicate GenuineAt(x: Exchange, now: real, a: Asking, i: nat) {
    x.udp.Open? && FirstGenuine(x.udp.inbox, i, now, WaitLimit(now, a), x.txid, a)
  }

  /** What the datagram at `i` is taken for. */
  ghost function ParsedAt(x: Exchange, a: Asking, i: nat): (p: Parsed) {
    if x.udp.Open? && i < |x.udp.inbox| && x.udp.inbox[i].Arrives? then
      Parse(x.udp.inbox[i].data, x.txid, a.name, a.qtype)
    else Malformed
  }

  /** The first genuine datagram, the one at `i`, is a truncated answer, so TCP is tried. */
  ghost predicate TruncatedAt(x: Exchange, now: real, a: Asking, i: nat) {
    GenuineAt(x, now, a, i) && ParsedAt(x, a, i).Answer? && ParsedAt(x, a, i).truncated
  }

  /** When the TCP exchange after that datagram starts. */
  function TcpStart(x: Exchange, now: real, i: nat): (t: real) {
    if x.udp.Open? && i < |x.udp.inbox| then Latest(x.udp.inbox[..i + 1], now) else now
  }

  lemma UdpTruncates(x: Exchange, now: real, a: Asking, i: nat)
    requires TruncatedAt(x, now, a, i)
    ensures var (reply, t) := UdpPart(x, now, a);
            reply.Answered? && reply.truncated && t == TcpStart(x, now, i)
  {
    hide Parse, Forged, OverUdp;
    UdpFirst(x.udp.inbox, i, now, WaitLimit(now, a), x.txid, a);
  }

  lemma UdpTruncated(x: Exchange, now: real, a: Asking) returns (i: nat)
    requires UdpPart(x, now, a).0.Answered? && UdpPart(x, now, a).0.truncated
    ensures TruncatedAt(x, now, a, i)
  {
    hide Parse, Forged, OverUdp;
    i := UdpProvenance(x.udp.inbox, now, WaitLimit(now, a), x.txid, a);
    UdpFirst(x.udp.inbox, i, now, WaitLimit(now, a), x.txid, a);
  }

  /** An untruncated answer with these records: in the first genuine datagram, or, when that is a truncated
      answer, in the message TCP delivers in time. */
  ghost predicate AnsweredWith(x: Exchange, now: real, a: Asking, records: seq<Record>) {
    exists i: nat :: GenuineAt(x, now, a, i)
      && var p := ParsedAt(x, a, i);
         || p == Answer(records, false)
         || (p.Answer? && p.truncated && TcpAnswers(x, TcpStart(x, now, i), a, records))
  }

  ghost predicate TcpAnswers(x: Exchange, start: real, a: Asking, records: seq<Record>) {
    var message := Delivered(x.tcp, start, a);
    message.Some? && Parse(message.value, x.txid, a.name, a.qtype) == Answer(records, false)
  }

  ghost predicate AnsweredAtAll(x: Exchange, now: real, a: Asking) {
    exists records :: AnsweredWith(x, now, a, records)
  }

  /** A truncated answer over UDP, and over TCP a message delivered in time that answers another question. */
  ghost predicate Escapes(x: Exchange, now: real, a: Asking) {
    exists i: nat :: TruncatedAt(x, now, a, i)
      && var message := Delivered(x.tcp, TcpStart(x, now, i), a);
         message.Some? && Parse(message.value, x.txid, a.name, a.qtype).WrongQuestion?
  }

  /** A truncated answer over UDP, and a TCP send that is still blocked at the deadline. */
  ghost predicate Overruns(x: Exchange, now: real, a: Asking) {
    exists i: nat :: TruncatedAt(x, now, a, i) && SendOverruns(x.tcp, TcpStart(x, now, i), a)
  }

  /** An attempt is answered exactly when what arrives holds an untruncated answer, and by that answer's
      records: a truncated one is never taken for the whole, whatever becomes of the TCP exchange. */
  lemma AskMeaning(x: Exchange, w: World, a: Asking)
    ensures forall records, truncated ::
              Ask(x, w, a).0 == Answered(records, truncated)
              <==> !truncated && AnsweredWith(x, w.now, a, records)
  {
    hide ParsedAt, OverTcp, UdpPart, GenuineAt, TcpAnswers;
    var (first, t) := UdpPart(x, w.now, a);
    if !(first.TimedOut? || first.Broken?) {
      var i := UdpGenuine(x, w.now, a);
      TcpMeaning(x, t, a);
    }
    forall i: nat | GenuineAt(x, w.now, a, i)
      ensures first == AsReply(ParsedAt(x, a, i)) && t == TcpStart(x, w.now, i)
    {
      UdpIsGenuine(x, w.now, a, i);
    }
  }

  lemma UdpIsGenuine(x: Exchange, now: real, a: Asking, i: nat)
    requires GenuineAt(x, now, a, i)
    ensures UdpPart(x, now, a) == (AsReply(ParsedAt(x, a, i)), TcpStart(x, now, i))
  {
    hide Parse, Forged, OverUdp;
    UdpFirst(x.udp.inbox, i, now, WaitLimit(now, a), x.txid, a);
  }

  lemma UdpGenuine(x: Exchange, now: real, a: Asking) returns (i: nat)
    requires var reply := UdpPart(x, now, a).0; !reply.TimedOut? && !reply.Broken?
    ensures GenuineAt(x, now, a, i)
  {
    hide Parse, FirstGenuine, OverUdp;
    i := UdpProvenance(x.udp.inbox, now, WaitLimit(now, a), x.txid, a);
  }

  lemma TcpMeaning(x: Exchange, start: real, a: Asking)
    ensures forall records, truncated ::
              OverTcp(x.tcp, start, x.txid, a).0 == Answered(records, truncated)
              <==> !truncated && TcpAnswers(x, start, a, records)
  {
    hide Parse, OverTcp, Delivered;
    TcpProvenance(x.tcp, start, x.txid, a);
  }

  /** Every attempt ends in one of three ways, each read off what arrives: answered, escaped, or tried again. */
  lemma RetriedMeaning(x: Exchange, w: World, a: Asking)
    ensures Ask(x, w, a).0.Answered? <==> AnsweredAtAll(x, w.now, a)
    ensures Retried(Ask(x, w, a).0) <==> !AnsweredAtAll(x, w.now, a) && !Escapes(x, w.now, a)
  {
    hide Ask, AnsweredWith, Escapes;
    var reply := Ask(x, w, a).0;
    AskMeaning(x, w, a);
    ForeignOnlyOverTcp(x, w, a);
    assert reply.Answered? ==> reply == Answered(reply.records, reply.truncated);
    if AnsweredAtAll(x, w.now, a) {
      var records :| AnsweredWith(x, w.now, a, records);
      assert reply == Answered(records, false);
    }
  }

  /** The one exception that is not caught leaves an attempt exactly when the bytes say so: the first datagram
      that is not for another question is a truncated answer, and the message TCP delivers in time is for another. */
  lemma ForeignOnlyOverTcp(x: Exchange, w: World, a: Asking)
    ensures Ask(x, w, a).0.Foreign? <==> Escapes(x, w.now, a)
  {
    hide Parse, OverTcp, OverUdp, TruncatedAt, Delivered;
    if x.udp.Open? {
      UdpInTime(x.udp.inbox, w.now, WaitLimit(w.now, a), x.txid, a);
    }
    var (first, t) := UdpPart(x, w.now, a);
    if first.Answered? && first.truncated {
      var i := UdpTruncated(x, w.now, a);
      UdpTruncates(x, w.now, a, i);
      TcpProvenance(x.tcp, t, x.txid, a);
    }
    forall i: nat | TruncatedAt(x, w.now, a, i)
      ensures first.Answered? && first.truncated && t == TcpStart(x, w.now, i)
    {
      UdpTruncates(x, w.now, a, i);
    }
  }

  /** An attempt begun before the deadline ends after it exactly when its TCP send is still blocked at the
      deadline, and then it has failed in a way that is tried again. */
  lemma LateOnlyOverTcp(x: Exchange, w: World, a: Asking)
    requires a.attemptTimeout > 0.0 && w.now < a.deadline
    ensures Ask(x, w, a).1.now > a.deadline <==> Overruns(x, w.now, a)
    ensures Ask(x, w, a).1.now > a.deadline ==> Retried(Ask(x, w, a).0)
  {
    hide Parse, OverTcp, OverUdp, TruncatedAt, SendOverruns;
    if x.udp.Open? {
      UdpInTime(x.udp.inbox, w.now, WaitLimit(w.now, a), x.txid, a);
    }
    var (first, t) := UdpPart(x, w.now, a);
    TcpInTime(x.tcp, t, x.txid, a);
    if first.Answered? && first.truncated {
      var i := UdpTruncated(x, w.now, a);
      UdpTruncates(x, w.now, a, i);
    }
    forall i: nat | TruncatedAt(x, w.now, a, i)
      ensures first.Answered? && first.truncated && t == TcpStart(x, w.now, i)
    {
      UdpTruncates(x, w.now, a, i);
    }
  }

  // ---------- a query, by its attempts ----------

  lemma {:induction false} QueryEscapes(script: nat -> Exchange, left: nat, w: World, a: Asking)
    ensures QueryFrom(script, left, w, a).0.Escaped?
            <==> exists v :: Attempted(script, left, w, a, v) && Ask(script(v.udp), v, a).0.Foreign?
    decreases left
  {
    hide Ask;
    if left > 0 && w.now < a.deadline {
      var (reply, next) := Ask(script(w.udp), w, a);
      QueryEscapes(script, left - 1, next, a);
      assert Attempted(script, left, w, a, w);
      if Retried(reply) && QueryFrom(script, left, w, a).0.Escaped? {
        var v :| Attempted(script, left - 1, next, a, v) && Ask(script(v.udp), v, a).0.Foreign?;
        assert Attempted(script, left, w, a, v);
      }
    }
  }

  lemma {:induction false} QueryOverruns(script: nat -> Exchange, left: nat, w: World, a: Asking)
    requires a.attemptTimeout > 0.0 && w.now <= a.deadline
    ensures QueryFrom(script, left, w, a).1.now > a.deadline
            <==> exists v :: Attempted(script, left, w, a, v) && Ask(script(v.udp), v, a).1.now > a.deadline
    ensures QueryFrom(script, left, w, a).1.now > a.deadline ==> QueryFrom(script, left, w, a).0.GaveUp?
    decreases left
  {
    hide Ask;
    if left > 0 && w.now < a.deadline {
      var (reply, next) := Ask(script(w.udp), w, a);
      LateOnlyOverTcp(script(w.udp), w, a);
      assert Attempted(script, left, w, a, w);
      if next.now <= a.deadline {
        QueryOverruns(script, left - 1, next, a);
        if Retried(reply) && QueryFrom(script, left, w, a).1.now > a.deadline {
          var v :| Attempted(script, left - 1, next, a, v) && Ask(script(v.udp), v, a).1.now > a.deadline;
          assert Attempted(script, left, w, a, v);
        }
      }
    }
  }

  /** A query is answered exactly when some attempt it makes is, with that attempt's records, and ends there. */
  lemma {:induction false} QueryAnswers(script: nat -> Exchange, left: nat, w: World, a: Asking,
                                        records: seq<Record>, next: World)
    ensures QueryFrom(script, left, w, a) == (Records(records), next)
            <==> exists v :: AnsweredIn(script, left, w, a, v, records) && next == Ask(script(v.udp), v, a).1
    decreases left
  {
    hide Ask, AnsweredWith;
    if left > 0 && w.now < a.deadline {
      var (reply, after) := Ask(script(w.udp), w, a);
      AskMeaning(script(w.udp), w, a);
      assert reply == Answered(records, false) <==> AnsweredWith(script(w.udp), w.now, a, records);
      assert Attempted(script, left, w, a, w);
      if Retried(reply) {
        QueryAnswers(script, left - 1, after, a, records, next);
        assert forall v :: AnsweredIn(script, left - 1, after, a, v, records)
                       ==> AnsweredIn(script, left, w, a, v, records);
      } else if QueryFrom(script, left, w, a) == (Records(records), next) {
        assert reply == Answered(records, reply.truncated);
        assert AnsweredIn(script, left, w, a, w, records);
      }
    }
  }

  /** The attempt made in world `v` is answered with these records. */
  ghost predicate AnsweredIn(script: nat -> Exchange, left: nat, w: World, a: Asking, v: World, records: seq<Record>) {
    Attempted(script, left, w, a, v) && AnsweredWith(script(v.udp), v.now, a, records)
  }

  // ---------- a lookup, by its attempts ----------

  lemma {:induction false} LookupEscapes(c: Config, script: nat -> Exchange, families: seq<Family>,
                                         only: Option<Family>, name: string, deadline: real, w: World)
    ensures LookupFrom(c, script, families, only, name, deadline, w).0.WrongAnswer?
            <==> exists f, v :: Made(c, script, families, only, name, deadline, w, f, v)
                                && Ask(script(v.udp), v, AskingOf(c, name, f, deadline)).0.Foreign?
    decreases |families|
  {
    hide Ask, QueryFrom, Attempted;
    if families != [] {
      var n: nat := |c.nameservers| * c.attempts;
      var a := AskingOf(c, name, families[0], deadline);
      var (end, next) := QueryFrom(script, n, w, a);
      if !InScope(families[0], only) {
        LookupEscapes(c, script, families[1..], only, name, deadline, w);
        assert forall f, v :: Made(c, script, families[1..], only, name, deadline, w, f, v)
                         <==> Made(c, script, families, only, name, deadline, w, f, v);
      } else {
        QueryEscapes(script, n, w, a);
        LookupEscapes(c, script, families[1..], only, name, deadline, next);
        assert forall v :: Attempted(script, n, w, a, v)
                       ==> Made(c, script, families, only, name, deadline, w, families[0], v);
        assert end.Records? ==>
            forall f, v :: Made(c, script, families[1..], only, name, deadline, next, f, v)
                       ==> Made(c, script, families, only, name, deadline, w, f, v);
      }
    }
  }

  lemma {:induction false} LookupOverruns(c: Config, script: nat -> Exchange, families: seq<Family>,
                                          only: Option<Family>, name: string, deadline: real, w: World)
    requires c.attemptTimeout > 0.0 && w.now <= deadline
    ensures LookupFrom(c, script, families, only, name, deadline, w).1.now > deadline
            <==> exists f, v :: Made(c, script, families, only, name, deadline, w, f, v)
                                && Ask(script(v.udp), v, AskingOf(c, name, f, deadline)).1.now > deadline
    ensures LookupFrom(c, script, families, only, name, deadline, w).1.now > deadline ==>
              LookupFrom(c, script, families, only, name, deadline, w).0.NoAnswer?
    decreases |families|
  {
    hide Ask, QueryFrom, Attempted;
    if families != [] {
      var n: nat := |c.nameservers| * c.attempts;
      var a := AskingOf(c, name, families[0], deadline);
      var (end, next) := QueryFrom(script, n, w, a);
      if !InScope(families[0], only) {
        LookupOverruns(c, script, families[1..], only, name, deadline, w);
        assert forall f, v :: Made(c, script, families[1..], only, name, deadline, w, f, v)
                         <==> Made(c, script, families, only, name, deadline, w, f, v);
      } else {
        QueryOverruns(script, n, w, a);
        assert forall v :: Attempted(script, n, w, a, v)
                       ==> Made(c, script, families, only, name, deadline, w, families[0], v);
        if next.now <= deadline {
          LookupOverruns(c, script, families[1..], only, name, deadline, next);
          assert end.Records? ==>
              forall f, v :: Made(c, script, families[1..], only, name, deadline, next, f, v)
                         ==> Made(c, script, families, only, name, deadline, w, f, v);
        }
      }
    }
  }

  // ---------- a call ----------

  /** When a call raises what it promises never to raise: exactly when some attempt it makes gets a truncated
      answer over UDP and, over TCP in time, a message for another question. */
  lemma CallEscapes(c: Config, script: nat -> Exchange, host: string, literal: Option<Address>, only: Option<Family>,
                    numericOnly: bool, w: World)
    ensures Call(c, script, host, literal, only, numericOnly, w).0.WrongQuestionError?
            <==> exists f, v :: CallMakes(c, script, host, literal, only, numericOnly, w, f, v)
                                && Escapes(script(v.udp), v.now, CallAsks(c, host, w, f))
  {
    hide Ask, LookupFrom, Made, Escapes, Encode, StripDots, Ips;
    var deadline := w.now + c.timeout;
    LookupEscapes(c, script, c.families, only, StripDots(host), deadline, w);
    if Call(c, script, host, literal, only, numericOnly, w).0.WrongQuestionError? {
      var f, v :| Made(c, script, c.families, only, StripDots(host), deadline, w, f, v)
                  && Ask(script(v.udp), v, AskingOf(c, StripDots(host), f, deadline)).0.Foreign?;
      assert CallMakes(c, script, host, literal, only, numericOnly, w, f, v);
    }
    forall f, v | Made(c, script, c.families, only, StripDots(host), w.now + c.timeout, w, f, v)
      ensures Ask(script(v.udp), v, CallAsks(c, host, w, f)).0.Foreign?
              <==> Escapes(script(v.udp), v.now, CallAsks(c, host, w, f))
    {
      ForeignOnlyOverTcp(script(v.udp), v, CallAsks(c, host, w, f));
    }
  }

  /** When a call outlives its timeout: exactly when some attempt it makes gets a truncated answer over UDP
      and is still sending the question over TCP at the deadline; and then the call fails. */
  lemma CallOverruns(c: Config, script: nat -> Exchange, host: string, literal: Option<Address>, only: Option<Family>,
                     numericOnly: bool, w: World)
    requires ValidConfig(c)
    ensures Call(c, script, host, literal, only, numericOnly, w).1.now > w.now + c.timeout
            <==> exists f, v :: CallMakes(c, script, host, literal, only, numericOnly, w, f, v)
                                && Overruns(script(v.udp), v.now, CallAsks(c, host, w, f))
    ensures Call(c, script, host, literal, only, numericOnly, w).1.now > w.now + c.timeout ==>
              Call(c, script, host, literal, only, numericOnly, w).0.GaiError?
  {
    hide Ask, LookupFrom, Made, Overruns, Encode, StripDots, Ips;
    var deadline := w.now + c.timeout;
    LookupOverruns(c, script, c.families, only, StripDots(host), deadline, w);
    forall f, v | Made(c, script, c.families, only, StripDots(host), deadline, w, f, v)
      ensures Ask(script(v.udp), v, CallAsks(c, host, w, f)).1.now > deadline
              <==> Overruns(script(v.udp), v.now, CallAsks(c, host, w, f))
    {
      MadeBefore(c, script, c.families, only, StripDots(host), deadline, w, f, v);
      LateOnlyOverTcp(script(v.udp), v, CallAsks(c, host, w, f));
    }
  }

  /** No attempt is begun at or after the deadline. */
  lemma {:induction false} MadeBefore(c: Config, script: nat -> Exchange, families: seq<Family>, only: Option<Family>,
                                      name: string, deadline: real, w: World, f: Family, v: World)
    requires Made(c, script, families, only, name, deadline, w, f, v)
    ensures v.now < deadline
    decreases |families|
  {
    hide QueryFrom;
    var a := AskingOf(c, name, families[0], deadline);
    if !InScope(families[0], only) {
      MadeBefore(c, script, families[1..], only, name, deadline, w, f, v);
    } else if f == families[0] && Attempted(script, |c.nameservers| * c.attempts, w, a, v) {
      AttemptedBefore(script, |c.nameservers| * c.attempts, w, a, v);
    } else {
      var next := QueryFrom(script, |c.nameservers| * c.attempts, w, a).1;
      MadeBefore(c, script, families[1..], only, name, deadline, next, f, v);
    }
  }

  lemma {:induction false} AttemptedBefore(script: nat -> Exchange, left: nat, w: World, a: Asking, v: World)
    requires Attempted(script, left, w, a, v)
    ensures v.now < a.deadline
    decreases left
  {
    hide Ask;
    if v != w {
      AttemptedBefore(script, left - 1, Ask(script(w.udp), w, a).1, a, v);
    }
  }

  // ---------- any call can escape ----------

  /** A reply to the question that holds nothing but the truncation bit. */
  function TruncatedReply(host: string, qtype: AddressType): (m: seq<byte>)
    requires Encode(host).Some?
  {
    Opening(host, 0, qtype, 0x8200, 0, 0, 0)
  }

  lemma TruncatedReplyParses(host: string, qtype: AddressType)
    requires Encode(host).Some?
    ensures Parse(TruncatedReply(host, qtype), 0, StripDots(host), qtype) == Answer([], true)
  {
    hide Parse, Encode, Opening;
    var p := TruncatedReply(host, qtype);
    var none: seq<Entry> := [];
    assert none + none == none;
    ParserUndoesPrinter(host, 0, qtype, 0x8200, 0, 0, none, none, []);
    assert p + [] == p;
  }

  /** An attempt that is answered over UDP at this moment, truncated. */
  function TruncatedOnce(host: string, qtype: AddressType, at: real, tcp: Tcp): (x: Exchange)
    requires Encode(host).Some?
  {
    Exchange(0, Open([Arrives(at, TruncatedReply(host, qtype))]), tcp)
  }

  lemma TruncatesOnce(host: string, a: Asking, now: real, at: real, tcp: Tcp)
    requires Encode(host).Some? && a.name == StripDots(host) && now <= at < WaitLimit(now, a)
    ensures var x := TruncatedOnce(host, a.qtype, at, tcp);
            TruncatedAt(x, now, a, 0) && TcpStart(x, now, 0) == at
  {
    hide Parse, Encode, TruncatedReply;
    TruncatedReplyParses(host, a.qtype);
    var inbox := TruncatedOnce(host, a.qtype, at, tcp).udp.inbox;
    assert inbox[..0 + 1] == inbox && inbox[1..] == [];
    assert FirstGenuine(inbox, 0, now, WaitLimit(now, a), 0, a);
    assert Latest([], at) == at;
  }

  lemma FirstAttemptIsMade(c: Config, script: nat -> Exchange, host: string, w: World)
    requires ValidConfig(c) && Encode(host).Some?
    ensures CallMakes(c, script, host, None, None, false, w, c.families[0], w)
  {
    hide Encode, StripDots, QueryFrom, Ask;
    SlotsProduct(|c.nameservers|, c.attempts);
    assert Slots(|c.nameservers|, c.attempts) >= c.attempts;
  }

  /** Under every configuration, and for every name that can be asked, some network makes the call raise what
      it promises never to raise. */
  lemma EveryCallCanEscape(c: Config, host: string, w: World) returns (script: nat -> Exchange)
    requires ValidConfig(c) && Encode(host).Some?
    ensures Call(c, script, host, None, None, false, w).0.WrongQuestionError?
  {
    hide Parse, Encode, StripDots, Call, Made, TruncatedAt, TcpStart, TruncatedOnce;
    var a := CallAsks(c, host, w, c.families[0]);
    var other := Header(1, 0, 0, 0, 0, 0);
    var stream := [Arrives(w.now, PutU16(12) + other)];
    var tcp := Connected(w.now, Sent(w.now), stream);
    var x := TruncatedOnce(host, a.qtype, w.now, tcp);
    script := (n: nat) => x;
    TruncatesOnce(host, a, w.now, w.now, tcp);
    FirstAttemptIsMade(c, script, host, w);
    assert Delivered(tcp, w.now, a) == Some(other) by {
      assert Timely(stream[1..], w.now, a.deadline) == [];
      assert Timely(stream, w.now, a.deadline) == PutU16(12) + other;
    }
    assert Parse(other, 0, a.name, a.qtype).WrongQuestion? by {
      OtherId(a.name, a.qtype);
    }
    assert x.tcp == tcp && x.txid == 0 by {
      OnceParts(host, a.qtype, w.now, tcp);
    }
    assert Escapes(x, w.now, a);
    CallEscapes(c, script, host, None, None, false, w);
  }

  lemma OnceParts(host: string, qtype: AddressType, now: real, tcp: Tcp)
    requires Encode(host).Some?
    ensures var x := TruncatedOnce(host, qtype, now, tcp); x.tcp == tcp && x.txid == 0
  {
  }

  lemma OtherId(name: string, qtype: AddressType)
    ensures Parse(Header(1, 0, 0, 0, 0, 0), 0, name, qtype).WrongQuestion?
  {
    assert PutU16(1)[1] == 1;
    assert U16(Header(1, 0, 0, 0, 0, 0), 0) == 1;
  }

  // ---------- completeness ----------

  /** Every attempt a lookup makes whose messages hold an answer is answered with its family's full set. */
  ghost predicate AnsweredInFull(c: Config, script: nat -> Exchange, families: seq<Family>, only: Option<Family>,
                                 name: string, deadline: real, w: World, full: Family -> seq<Record>)
  {
    forall f, v, records :: Made(c, script, families, only, name, deadline, w, f, v)
                            && AnsweredWith(script(v.udp), v.now, AskingOf(c, name, f, deadline), records)
                            ==> records == full(f)
  }

  /** The complete answer set of a name: every family in scope, in the configured order. */
  function Complete(families: seq<Family>, only: Option<Family>, full: Family -> seq<Record>): (all: seq<Record>) {
    if families == [] then []
    else (if InScope(families[0], only) then full(families[0]) else []) + Complete(families[1..], only, full)
  }

  /** A lookup returns the complete answer set or nothing: suppressing any choice of replies can make it
      fail and cannot make it smaller. */
  lemma {:induction false} LookupIsComplete(c: Config, script: nat -> Exchange, families: seq<Family>,
                                            only: Option<Family>, name: string, deadline: real, w: World,
                                            full: Family -> seq<Record>)
    requires AnsweredInFull(c, script, families, only, name, deadline, w, full)
    ensures var end := LookupFrom(c, script, families, only, name, deadline, w).0;
            end.Found? ==> end.records == Complete(families, only, full)
    decreases |families|
  {
    hide QueryFrom, Ask, Attempted, AnsweredWith;
    if families != [] {
      var n: nat := |c.nameservers| * c.attempts;
      var a := AskingOf(c, name, families[0], deadline);
      if InScope(families[0], only) {
        var (end, next) := QueryFrom(script, n, w, a);
        assert forall v :: Attempted(script, n, w, a, v)
                       ==> Made(c, script, families, only, name, deadline, w, families[0], v);
        if end.Records? {
          QueryAnswers(script, n, w, a, end.records, next);
          assert end.records == full(families[0]);
          assert forall f, v :: Made(c, script, families[1..], only, name, deadline, next, f, v)
                            ==> Made(c, script, families, only, name, deadline, w, f, v);
          LookupIsComplete(c, script, families[1..], only, name, deadline, next, full);
        }
      } else {
        assert forall f, v :: Made(c, script, families[1..], only, name, deadline, w, f, v)
                          ==> Made(c, script, families, only, name, deadline, w, f, v);
        LookupIsComplete(c, script, families[1..], only, name, deadline, w, full);
        assert [] + Complete(families[1..], only, full) == Complete(families[1..], only, full);
      }
    }
  }
}

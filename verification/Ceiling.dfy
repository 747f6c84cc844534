/** Which configurations keep `timeout` as a ceiling on every call, whatever the network does. */
module Ceiling {
  import opened Wire
  import opened Names
  import opened Networks
  import opened Messages
  import opened Replies
  import opened StubResolver
  import opened ResolverBounds
  import opened Attempts

  /** How many of the families are asked about. */
  function Wanted(families: seq<Family>, only: Option<Family>): (n: nat)
  {
    if families == [] then 0 else (if InScope(families[0], only) then 1 else 0) + Wanted(families[1..], only)
  }

  /** How many attempts a call may make. */
  function Budget(c: Config, only: Option<Family>): (n: int) {
    Wanted(c.families, only) * (|c.nameservers| * c.attempts)
  }

  /** A call may be made to outlive its timeout with two attempts, or with one that may wait three times. */
  predicate MayOverrun(c: Config, only: Option<Family>) {
    Budget(c, only) >= 2 || (Budget(c, only) == 1 && 3.0 * c.attemptTimeout > c.timeout)
  }

  // ---------- a ceiling that holds ----------

  /** A send that overruns the deadline has waited three times in one attempt: for UDP, for the connection,
      and to send, each time for less than the limit. */
  lemma OverrunTakesThreeWaits(x: Exchange, now: real, a: Asking)
    requires Overruns(x, now, a)
    ensures now + 3.0 * a.attemptTimeout > a.deadline
  {
    hide Parse, Forged, SentAt;
    var i: nat :| TruncatedAt(x, now, a, i) && SendOverruns(x.tcp, TcpStart(x, now, i), a);
    LatestBefore(x.udp.inbox[..i + 1], now, WaitLimit(now, a));
  }

  lemma {:induction false} LatestBefore(events: seq<Event>, now: real, until: real)
    requires now < until && forall k :: 0 <= k < |events| ==> events[k].at < until
    ensures Latest(events, now) < until
    decreases |events|
  {
    if events != [] {
      LatestBefore(events[1..], Max(now, events[0].at), until);
    }
  }

  lemma {:induction false} NothingMade(c: Config, script: nat -> Exchange, families: seq<Family>, only: Option<Family>,
                                       name: string, deadline: real, w: World, f: Family, v: World)
    requires Wanted(families, only) == 0
    ensures !Made(c, script, families, only, name, deadline, w, f, v)
    decreases |families|
  {
    if families != [] {
      NothingMade(c, script, families[1..], only, name, deadline, w, f, v);
    }
  }

  /** With one family wanted and one attempt for it, the only attempt made is the first. */
  lemma {:induction false} OnlyTheFirst(c: Config, script: nat -> Exchange, families: seq<Family>, only: Option<Family>,
                                        name: string, deadline: real, w: World, f: Family, v: World)
    requires Wanted(families, only) == 1 && |c.nameservers| * c.attempts == 1
    requires Made(c, script, families, only, name, deadline, w, f, v)
    ensures v == w
    decreases |families|
  {
    hide Ask, QueryFrom;
    if InScope(families[0], only) {
      var a := AskingOf(c, name, families[0], deadline);
      NothingMade(c, script, families[1..], only, name, deadline, QueryFrom(script, 1, w, a).1, f, v);
    } else {
      OnlyTheFirst(c, script, families[1..], only, name, deadline, w, f, v);
    }
  }

  lemma BudgetOfOne(c: Config, only: Option<Family>)
    requires ValidConfig(c)
    ensures |c.nameservers| * c.attempts >= 1
    ensures Budget(c, only) == 0 <==> Wanted(c.families, only) == 0
    ensures Budget(c, only) == 1 <==> Wanted(c.families, only) == 1 && |c.nameservers| * c.attempts == 1
  {
    SlotsProduct(|c.nameservers|, c.attempts);
    assert Slots(|c.nameservers|, c.attempts) >= c.attempts;
    ProductOfOne(Wanted(c.families, only), |c.nameservers| * c.attempts);
  }

  lemma ProductOfOne(x: nat, y: nat)
    requires y >= 1
    ensures x * y == 0 <==> x == 0
    ensures x * y == 1 <==> x == 1 && y == 1
  {
    if x >= 1 {
      assert x * y == y + (x - 1) * y;
      if x >= 2 {
        assert (x - 1) * y == y + (x - 2) * y;
        assert (x - 2) * y >= 0;
      }
    }
  }

  /** Where the condition fails no network makes the call outlive its timeout. */
  lemma CeilingHolds(c: Config, script: nat -> Exchange, host: string, literal: Option<Address>,
                     only: Option<Family>, numericOnly: bool, w: World)
    requires ValidConfig(c) && !MayOverrun(c, only)
    ensures Call(c, script, host, literal, only, numericOnly, w).1.now <= w.now + c.timeout
  {
    hide Call, Made, Overruns, Encode, StripDots, Budget, Wanted;
    CallOverruns(c, script, host, literal, only, numericOnly, w);
    BudgetOfOne(c, only);
    forall f, v | CallMakes(c, script, host, literal, only, numericOnly, w, f, v)
      ensures !Overruns(script(v.udp), v.now, CallAsks(c, host, w, f))
    {
      if Wanted(c.families, only) == 0 {
        NothingMade(c, script, c.families, only, StripDots(host), w.now + c.timeout, w, f, v);
      } else {
        BudgetIsSmall(c, only);
        OnlyTheFirst(c, script, c.families, only, StripDots(host), w.now + c.timeout, w, f, v);
        if Overruns(script(v.udp), v.now, CallAsks(c, host, w, f)) {
          OverrunTakesThreeWaits(script(v.udp), v.now, CallAsks(c, host, w, f));
        }
      }
    }
  }

  lemma BudgetIsSmall(c: Config, only: Option<Family>)
    requires ValidConfig(c) && !MayOverrun(c, only) && Wanted(c.families, only) != 0
    ensures Wanted(c.families, only) == 1 && |c.nameservers| * c.attempts == 1
  {
    hide Wanted;
    BudgetOfOne(c, only);
    assert Budget(c, only) >= 0 by {
      ProductOfOne(Wanted(c.families, only), |c.nameservers| * c.attempts);
    }
  }

  // ---------- a ceiling that gives way ----------

  /** An attempt that waits a third of what is left for UDP, a third for the connection, and is then still
      sending at the deadline. */
  function Stuck(host: string, a: Asking, now: real): (x: Exchange)
    requires Encode(host).Some?
  {
    var third := (a.deadline - now) / 3.0;
    TruncatedOnce(host, a.qtype, now + third, Connected(now + third + third, Sent(a.deadline + a.deadline - now), []))
  }

  lemma StuckOverruns(host: string, a: Asking, now: real)
    requires Encode(host).Some? && a.name == StripDots(host)
    requires now < a.deadline < now + 3.0 * a.attemptTimeout
    ensures Overruns(Stuck(host, a, now), now, a)
  {
    hide Encode, StripDots, TruncatedAt, TcpStart;
    var third := (a.deadline - now) / 3.0;
    var tcp := Connected(now + third + third, Sent(a.deadline + a.deadline - now), []);
    hide TruncatedOnce;
    TruncatesOnce(host, a, now, now + third, tcp);
    OnceParts(host, a.qtype, now + third, tcp);
    assert SendOverruns(tcp, now + third, a);
  }

  /** An attempt whose TCP exchange breaks off at this moment. */
  function LateFailure(host: string, qtype: AddressType, now: real, late: real): (x: Exchange)
    requires Encode(host).Some?
  {
    TruncatedOnce(host, qtype, now, Connected(now, Sent(now), [Breaks(late)]))
  }

  lemma LateFailureEnds(host: string, a: Asking, w: World, late: real)
    requires Encode(host).Some? && a.name == StripDots(host) && a.attemptTimeout > 0.0
    requires w.now <= late < a.deadline
    ensures Ask(LateFailure(host, a.qtype, w.now, late), w, a) == (Broken, World(late, w.udp + 1, w.tcp + 1))
  {
    hide Parse, Encode, StripDots, TruncatedAt, TruncatedOnce, UdpPart, TcpStart;
    var stream := [Breaks(late)];
    var tcp := Connected(w.now, Sent(w.now), stream);
    var x := LateFailure(host, a.qtype, w.now, late);
    TruncatesOnce(host, a, w.now, w.now, tcp);
    UdpTruncates(x, w.now, a, 0);
    OnceParts(host, a.qtype, w.now, tcp);
    assert Receive(stream, [], 2, w.now, a.deadline) == (NotGot(Broken), late);
  }

  /** A reply to the question with no records in it. */
  function EmptyReply(host: string, qtype: AddressType): (m: seq<byte>)
    requires Encode(host).Some?
  {
    Opening(host, 0, qtype, 0x8000, 0, 0, 0)
  }

  lemma EmptyReplyParses(host: string, qtype: AddressType)
    requires Encode(host).Some?
    ensures Parse(EmptyReply(host, qtype), 0, StripDots(host), qtype) == Answer([], false)
  {
    hide Parse, Encode, Opening;
    var p := EmptyReply(host, qtype);
    var none: seq<Entry> := [];
    assert none + none == none;
    ParserUndoesPrinter(host, 0, qtype, 0x8000, 0, 0, none, none, []);
    assert p + [] == p;
  }

  lemma EmptyReplyFits(host: string, qtype: AddressType)
    requires Encode(host).Some?
    ensures 0 < |EmptyReply(host, qtype)| < 0x1_0000
  {
    hide Header, PutU16, StripDots, Split, AreLabels, LabelBytes;
  }

  /** An attempt whose TCP exchange delivers an answer at this moment. */
  function LateAnswer(host: string, qtype: AddressType, now: real, late: real): (x: Exchange)
    requires Encode(host).Some? && |EmptyReply(host, qtype)| < 0x1_0000
  {
    var m := EmptyReply(host, qtype);
    TruncatedOnce(host, qtype, now, Connected(now, Sent(now), [Arrives(late, PutU16(|m|) + m)]))
  }

  /** A message that arrives whole is read whole, at the moment it arrives. */
  lemma ReadWhole(m: seq<byte>, now: real, late: real, until: real)
    requires 0 < |m| < 0x1_0000 && now <= late < until
    ensures var rest := [Arrives(late, m)];
            && Receive([Arrives(late, PutU16(|m|) + m)], [], 2, now, until) == (Got(PutU16(|m|), rest), late)
            && Receive(rest, [], |m|, late, until) == (Got(m, []), late)
  {
    hide PutU16;
    var prefix := PutU16(|m|);
    var all := prefix + m;
    assert all[..2] == prefix && all[2..] == m && [] + prefix == prefix && [] + m == m;
    assert [Arrives(late, m)] + [] == [Arrives(late, m)];
    assert [Arrives(late, all)][1..] == [];
    assert [Arrives(late, m)][1..] == [];
  }

  lemma LateAnswerEnds(host: string, a: Asking, w: World, late: real)
    requires Encode(host).Some? && a.name == StripDots(host) && a.attemptTimeout > 0.0
    requires w.now <= late < a.deadline && |EmptyReply(host, a.qtype)| < 0x1_0000
    ensures Ask(LateAnswer(host, a.qtype, w.now, late), w, a)
         == (Answered([], false), World(late, w.udp + 1, w.tcp + 1))
  {
    hide Parse, Encode, StripDots, TruncatedAt, TruncatedOnce, UdpPart, TcpStart, EmptyReply, Receive, PutU16;
    var m := EmptyReply(host, a.qtype);
    var tcp := Connected(w.now, Sent(w.now), [Arrives(late, PutU16(|m|) + m)]);
    var x := LateAnswer(host, a.qtype, w.now, late);
    EmptyReplyParses(host, a.qtype);
    EmptyReplyFits(host, a.qtype);
    TruncatesOnce(host, a, w.now, w.now, tcp);
    UdpTruncates(x, w.now, a, 0);
    OnceParts(host, a.qtype, w.now, tcp);
    ReadWhole(m, w.now, late, a.deadline);
    assert U16Of(PutU16(|m|)) == |m|;
  }

  // ---------- the families asked about first and second ----------

  function FirstWanted(families: seq<Family>, only: Option<Family>): (f: Family)
    requires Wanted(families, only) > 0
  {
    if InScope(families[0], only) then families[0] else FirstWanted(families[1..], only)
  }

  function AfterFirst(families: seq<Family>, only: Option<Family>): (rest: seq<Family>)
    requires Wanted(families, only) > 0
    ensures Wanted(rest, only) == Wanted(families, only) - 1
  {
    if InScope(families[0], only) then families[1..] else AfterFirst(families[1..], only)
  }

  lemma {:induction false} FirstMade(c: Config, script: nat -> Exchange, families: seq<Family>, only: Option<Family>,
                                     name: string, deadline: real, w: World, v: World)
    requires Wanted(families, only) > 0
    requires Attempted(script, |c.nameservers| * c.attempts, w,
                       AskingOf(c, name, FirstWanted(families, only), deadline), v)
    ensures Made(c, script, families, only, name, deadline, w, FirstWanted(families, only), v)
    decreases |families|
  {
    hide Attempted, QueryFrom;
    if !InScope(families[0], only) {
      FirstMade(c, script, families[1..], only, name, deadline, w, v);
    }
  }

  lemma {:induction false} LaterMade(c: Config, script: nat -> Exchange, families: seq<Family>, only: Option<Family>,
                                     name: string, deadline: real, w: World, next: World, f: Family, v: World)
    requires Wanted(families, only) > 0
    requires var a := AskingOf(c, name, FirstWanted(families, only), deadline);
             var end := QueryFrom(script, |c.nameservers| * c.attempts, w, a);
             end.0.Records? && end.1 == next
    requires Made(c, script, AfterFirst(families, only), only, name, deadline, next, f, v)
    ensures Made(c, script, families, only, name, deadline, w, f, v)
    decreases |families|
  {
    hide Attempted, QueryFrom;
    if !InScope(families[0], only) {
      LaterMade(c, script, families[1..], only, name, deadline, w, next, f, v);
    }
  }

  /** The moment at which the last attempt is begun: its timeout, or the whole call's, before the deadline. */
  function Late(c: Config, w: World): (t: real) {
    w.now + c.timeout - Min(c.attemptTimeout, c.timeout)
  }

  /** With a second attempt for the first family wanted: the first breaks off late, the second gets stuck. */
  lemma GivesWayAgain(c: Config, host: string, only: Option<Family>, w: World) returns (script: nat -> Exchange)
    requires ValidConfig(c) && Encode(host).Some? && Wanted(c.families, only) > 0
    requires |c.nameservers| * c.attempts >= 2
    ensures Call(c, script, host, None, only, false, w).1.now > w.now + c.timeout
  {
    hide Encode, StripDots, Call, Made, Ask, Overruns, Stuck, LateFailure, Wanted;
    var f := FirstWanted(c.families, only);
    var a, late := CallAsks(c, host, w, f), Late(c, w);
    var first, second := LateFailure(host, a.qtype, w.now, late), Stuck(host, a, late);
    script := (n: nat) => if n == w.udp then first else second;
    var v := World(late, w.udp + 1, w.tcp + 1);
    LateFailureEnds(host, a, w, late);
    assert Attempted(script, |c.nameservers| * c.attempts - 1, v, a, v);
    assert Attempted(script, |c.nameservers| * c.attempts, w, a, v);
    FirstMade(c, script, c.families, only, StripDots(host), a.deadline, w, v);
    StuckOverruns(host, a, late);
    assert CallMakes(c, script, host, None, only, false, w, f, v);
    CallOverruns(c, script, host, None, only, false, w);
  }

  /** With a second family wanted: the first is answered late, and the question about the second gets stuck. */
  lemma GivesWayNext(c: Config, host: string, only: Option<Family>, w: World) returns (script: nat -> Exchange)
    requires ValidConfig(c) && Encode(host).Some? && Wanted(c.families, only) >= 2
    requires |c.nameservers| * c.attempts >= 1
    ensures Call(c, script, host, None, only, false, w).1.now > w.now + c.timeout
  {
    hide Encode, StripDots, Call, Made, Ask, Overruns, Stuck, LateAnswer, Wanted, EmptyReply;
    var f, rest := FirstWanted(c.families, only), AfterFirst(c.families, only);
    var g := FirstWanted(rest, only);
    var a, b, late := CallAsks(c, host, w, f), CallAsks(c, host, w, g), Late(c, w);
    EmptyReplyFits(host, a.qtype);
    var first, second := LateAnswer(host, a.qtype, w.now, late), Stuck(host, b, late);
    script := (n: nat) => if n == w.udp then first else second;
    var v := World(late, w.udp + 1, w.tcp + 1);
    LateAnswerEnds(host, a, w, late);
    assert QueryFrom(script, |c.nameservers| * c.attempts, w, a) == (Records([]), v);
    assert Attempted(script, |c.nameservers| * c.attempts, v, b, v);
    FirstMade(c, script, rest, only, StripDots(host), a.deadline, v, v);
    LaterMade(c, script, c.families, only, StripDots(host), a.deadline, w, v, g, v);
    StuckOverruns(host, b, late);
    assert CallMakes(c, script, host, None, only, false, w, g, v);
    CallOverruns(c, script, host, None, only, false, w);
  }

  /** With three waits longer than the timeout: the first attempt gets stuck. */
  lemma GivesWayAtOnce(c: Config, host: string, only: Option<Family>, w: World) returns (script: nat -> Exchange)
    requires ValidConfig(c) && Encode(host).Some? && Wanted(c.families, only) > 0
    requires |c.nameservers| * c.attempts >= 1 && 3.0 * c.attemptTimeout > c.timeout
    ensures Call(c, script, host, None, only, false, w).1.now > w.now + c.timeout
  {
    hide Encode, StripDots, Call, Made, Ask, Overruns, Stuck, Wanted;
    var f := FirstWanted(c.families, only);
    var a := CallAsks(c, host, w, f);
    var stuck := Stuck(host, a, w.now);
    script := (n: nat) => stuck;
    assert Attempted(script, |c.nameservers| * c.attempts, w, a, w);
    FirstMade(c, script, c.families, only, StripDots(host), a.deadline, w, w);
    StuckOverruns(host, a, w.now);
    assert CallMakes(c, script, host, None, only, false, w, f, w);
    CallOverruns(c, script, host, None, only, false, w);
  }

  /** Where the condition holds some network makes the call outlive its timeout. */
  lemma CeilingGivesWay(c: Config, host: string, only: Option<Family>, w: World) returns (script: nat -> Exchange)
    requires ValidConfig(c) && Encode(host).Some? && MayOverrun(c, only)
    ensures Call(c, script, host, None, only, false, w).1.now > w.now + c.timeout
  {
    hide Encode, Call, Wanted, Budget;
    BudgetOfOne(c, only);
    if |c.nameservers| * c.attempts >= 2 {
      script := GivesWayAgain(c, host, only, w);
    } else if Wanted(c.families, only) >= 2 {
      script := GivesWayNext(c, host, only, w);
    } else {
      script := GivesWayAtOnce(c, host, only, w);
    }
  }

  /** The ceiling, exactly. For every configuration the constructor accepts and every call, some network makes
      the call outlive `timeout` if and only if the call goes to the network at all and the configuration grants
      it two attempts, or one that may wait three times its limit beyond the timeout. */
  lemma CeilingMeaning(c: Config, host: string, literal: Option<Address>, only: Option<Family>, numericOnly: bool,
                       w: World)
    requires ValidConfig(c)
    ensures (exists script :: Call(c, script, host, literal, only, numericOnly, w).1.now > w.now + c.timeout)
            <==> literal.None? && !numericOnly && Encode(host).Some? && MayOverrun(c, only)
  {
    hide Encode, Call, MayOverrun;
    if literal.None? && !numericOnly && Encode(host).Some? && MayOverrun(c, only) {
      var script := CeilingGivesWay(c, host, only, w);
      assert Call(c, script, host, literal, only, numericOnly, w).1.now > w.now + c.timeout;
    }
    forall script | Call(c, script, host, literal, only, numericOnly, w).1.now > w.now + c.timeout
      ensures literal.None? && !numericOnly && Encode(host).Some? && MayOverrun(c, only)
    {
      OverrunNeedsACall(c, script, host, literal, only, numericOnly, w);
      if !MayOverrun(c, only) {
        CeilingHolds(c, script, host, literal, only, numericOnly, w);
      }
    }
  }

  lemma OverrunNeedsACall(c: Config, script: nat -> Exchange, host: string, literal: Option<Address>,
                          only: Option<Family>, numericOnly: bool, w: World)
    requires ValidConfig(c) && Call(c, script, host, literal, only, numericOnly, w).1.now > w.now + c.timeout
    ensures literal.None? && !numericOnly && Encode(host).Some?
  {
    hide Encode, LookupFrom;
  }

  /** The configuration a resolver is built with when only its nameservers are given. */
  function Defaults(nameservers: seq<string>): (c: Config) {
    Config(nameservers, 5.0, 1.0, 2, [Inet6, Inet])
  }

  /** The defaults do not keep the ceiling, for any name, whichever families are asked for. */
  lemma DefaultsGiveWay(nameservers: seq<string>, host: string, only: Option<Family>, w: World)
    returns (script: nat -> Exchange)
    requires nameservers != [] && Encode(host).Some?
    ensures Call(Defaults(nameservers), script, host, None, only, false, w).1.now > w.now + 5.0
  {
    hide Encode, Call, StripDots;
    var c := Defaults(nameservers);
    assert Wanted(c.families[2..], only) == 0 && c.families[1..][1..] == c.families[2..];
    assert Wanted(c.families, only) >= 1 by {
      assert only.Some? ==> only.value == Inet6 || only.value == Inet;
    }
    hide Wanted;
    script := GivesWayAgain(c, host, only, w);
  }
}

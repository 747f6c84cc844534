/** The stub resolver: one UDP question per attempt, TCP when truncated, every server and attempt under one
    deadline. The network is a script of exchanges; waiting is the only thing that takes time. */
module StubResolver {
  import opened Wire
  import opened Names
  import opened Networks
  import opened Messages
  import opened Replies

  // ---------- the network ----------

  type u16 = x: int | 0 <= x < 0x1_0000

  /** Something `recv` gives: bytes that arrive at a moment, or an OSError raised at one.
      On a stream no bytes means the peer closed. */
  datatype Event = Arrives(at: real, data: seq<byte>) | Breaks(at: real)

  datatype Udp = NoSocket | Open(inbox: seq<Event>)

  /** When `sendall` is through, or breaks off. */
  datatype Send = Sent(at: real) | Cut(at: real)

  datatype Tcp = Refused(at: real) | Connected(at: real, send: Send, stream: seq<Event>)

  /** Everything one attempt meets: the transaction id drawn, the datagrams, and the stream if TCP is tried. */
  datatype Exchange = Exchange(txid: u16, udp: Udp, tcp: Tcp)

  /** The monotonic clock, and how many UDP and TCP exchanges have been made. */
  datatype World = World(now: real, udp: nat, tcp: nat)

  /** How one question to one server ends: an answer, or one of the five exceptions. */
  datatype Reply =
    | Answered(records: seq<Record>, truncated: bool)
    | TimedOut
    | Broken
    | Garbled
    | Refusing
    | Foreign

  /** What `_query` catches and tries again after; `Foreign` is not among them. */
  predicate Retried(r: Reply) {
    r.TimedOut? || r.Broken? || r.Garbled? || r.Refusing?
  }

  datatype Family = Inet | Inet6

  datatype Config = Config(
    nameservers: seq<string>, timeout: real, attemptTimeout: real, attempts: nat, families: seq<Family>)

  predicate ValidConfig(c: Config) {
    && c.nameservers != []
    && c.timeout > 0.0
    && c.attemptTimeout > 0.0
    && c.attempts >= 1
    && c.families != []
  }

  function QType(f: Family): (t: AddressType) { if f == Inet6 then TYPE_AAAA else TYPE_A }

  /** What one question asks, and until when. */
  datatype Asking = Asking(name: string, qtype: AddressType, deadline: real, attemptTimeout: real)

  function Min(x: real, y: real): (m: real) { if x < y then x else y }

  function Max(x: real, y: real): (m: real) { if x < y then y else x }

  function AsReply(p: Parsed): (r: Reply) {
    match p
    case Answer(records, truncated) => Answered(records, truncated)
    case Malformed => Garbled
    case WrongQuestion => Foreign
    case ServerFailure => Refusing
  }

  // ---------- one exchange, as a function of what arrives ----------

  /** Waiting for an answer: replies to other questions do not end the wait. */
  ghost function OverUdp(inbox: seq<Event>, now: real, until: real, txid: u16, a: Asking): (r: (Reply, real))
  {
    if now >= until then (TimedOut, now)
    else if inbox == [] || Max(now, inbox[0].at) >= until then (TimedOut, until)
    else if inbox[0].Breaks? then (Broken, Max(now, inbox[0].at))
    else
      var p := Parse(inbox[0].data, txid, a.name, a.qtype);
      if p.WrongQuestion? then OverUdp(inbox[1..], Max(now, inbox[0].at), until, txid, a)
      else (AsReply(p), Max(now, inbox[0].at))
  }

  datatype Read = Got(data: seq<byte>, rest: seq<Event>) | NotGot(why: Reply)

  /** Reading from a stream until `count` bytes are there. */
  function Receive(stream: seq<Event>, got: seq<byte>, count: nat, now: real, until: real): (r: (Read, real))
    ensures r.0.NotGot? ==> Retried(r.0.why)
    decreases |stream|
  {
    if |got| >= count then (Got(got, stream), now)
    else if now >= until then (NotGot(TimedOut), now)
    else if stream == [] || Max(now, stream[0].at) >= until then (NotGot(TimedOut), until)
    else if stream[0].Breaks? then (NotGot(Broken), Max(now, stream[0].at))
    else if stream[0].data == [] then (NotGot(Garbled), Max(now, stream[0].at))
    else
      var t := Max(now, stream[0].at);
      var missing := count - |got|;
      if missing < |stream[0].data| then
        (Got(got + stream[0].data[..missing], [Arrives(stream[0].at, stream[0].data[missing..])] + stream[1..]), t)
      else Receive(stream[1..], got + stream[0].data, count, t, until)
  }

  /** An attempt that starts at `now` waits this long for a server, on UDP or to connect over TCP. */
  function WaitLimit(now: real, a: Asking): (limit: real) { Min(a.deadline, now + a.attemptTimeout) }

  /** When the connection is up, counted from the start of the TCP exchange. */
  function UpAt(tcp: Tcp, now: real): (t: real) { Max(now, tcp.at) }

  /** When sending is over if nothing stops it. */
  function SentAt(tcp: Tcp, now: real): (t: real)
    requires tcp.Connected?
  {
    Max(UpAt(tcp, now), tcp.send.at)
  }

  /** `sendall` still runs under the timeout that was computed before connecting, so its limit is counted
      from the moment the connection is up. */
  function SendLimit(tcp: Tcp, now: real, a: Asking): (limit: real) { UpAt(tcp, now) + (WaitLimit(now, a) - now) }

  ghost function OverTcp(tcp: Tcp, now: real, txid: u16, a: Asking): (r: (Reply, real))
  {
    if now >= a.deadline then (TimedOut, now)
    else if UpAt(tcp, now) >= WaitLimit(now, a) then (TimedOut, WaitLimit(now, a))
    else if tcp.Refused? then (Broken, UpAt(tcp, now))
    else if SentAt(tcp, now) >= SendLimit(tcp, now, a) then (TimedOut, SendLimit(tcp, now, a))
    else if tcp.send.Cut? then (Broken, SentAt(tcp, now))
    else
      var (prefix, t) := Receive(tcp.stream, [], 2, SentAt(tcp, now), a.deadline);
      if prefix.NotGot? then (prefix.why, t)
      else
        var (body, end) := Receive(prefix.rest, [], U16Of(prefix.data), t, a.deadline);
        if body.NotGot? then (body.why, end)
        else
          var p := Parse(body.data, txid, a.name, a.qtype);
          (if p.Answer? && p.truncated then Garbled else AsReply(p), end)
  }

  function U16Of(w: seq<byte>): (v: nat) {
    if |w| >= 2 then U16(w, 0) else 0
  }

  ghost function UdpPart(x: Exchange, now: real, a: Asking): (r: (Reply, real)) {
    match x.udp
    case NoSocket => (Broken, now)
    case Open(inbox) => OverUdp(inbox, now, WaitLimit(now, a), x.txid, a)
  }

  /** One question to one server: UDP, and TCP only after a truncated answer. */
  ghost function Ask(x: Exchange, w: World, a: Asking): (r: (Reply, World)) {
    var (reply, t) := UdpPart(x, w.now, a);
    if reply.Answered? && reply.truncated then
      var (again, end) := OverTcp(x.tcp, t, x.txid, a);
      (again, World(end, w.udp + 1, w.tcp + 1))
    else (reply, World(t, w.udp + 1, w.tcp))
  }

  datatype QueryEnd = Records(records: seq<Record>) | GaveUp | Escaped

  /** At most `left` further attempts at one question. */
  ghost function QueryFrom(script: nat -> Exchange, left: nat, w: World, a: Asking): (r: (QueryEnd, World))
    decreases left
  {
    if left == 0 || w.now >= a.deadline then (GaveUp, w)
    else
      var (reply, next) := Ask(script(w.udp), w, a);
      match reply
      case Answered(records, _) => (Records(records), next)
      case Foreign => (Escaped, next)
      case _ => QueryFrom(script, left - 1, next, a)
  }

  datatype LookupEnd = Found(records: seq<Record>) | NoName | NoAnswer | WrongAnswer

  predicate InScope(wanted: Family, only: Option<Family>) {
    only == None || only == Some(wanted)
  }

  function AskingOf(c: Config, name: string, f: Family, deadline: real): (a: Asking) {
    Asking(name, QType(f), deadline, c.attemptTimeout)
  }

  function Ahead(out: seq<Record>, r: (LookupEnd, World)): (after: (LookupEnd, World)) {
    if r.0.Found? then (Found(out + r.0.records), r.1) else r
  }

  /** The families in scope one after another, stopping at the first that is not answered. */
  ghost function LookupFrom(c: Config, script: nat -> Exchange, families: seq<Family>, only: Option<Family>,
                            name: string, deadline: real, w: World): (r: (LookupEnd, World))
    decreases |families|
  {
    if families == [] then (Found([]), w)
    else if !InScope(families[0], only) then LookupFrom(c, script, families[1..], only, name, deadline, w)
    else
      var (q, next) := QueryFrom(script, |c.nameservers| * c.attempts, w, AskingOf(c, name, families[0], deadline));
      match q
      case GaveUp => (NoAnswer, next)
      case Escaped => (WrongAnswer, next)
      case Records(records) =>
        Ahead(records, LookupFrom(c, script, families[1..], only, name, deadline, next))
  }

  ghost function Lookup(c: Config, script: nat -> Exchange, host: string, only: Option<Family>, deadline: real,
                        w: World)
    : (r: (LookupEnd, World))
  {
    if Encode(host).None? then (NoName, w)
    else LookupFrom(c, script, c.families, only, StripDots(host), deadline, w)
  }

  datatype CallEnd = Rows(ips: seq<Address>) | GaiError | WrongQuestionError

  function Ips(records: seq<Record>): (ips: seq<Address>)
    ensures |ips| == |records|
  {
    seq(|records|, i requires 0 <= i < |records| => records[i].ip)
  }

  /** `UdpResolver.__call__`: `literal` is what `ipaddress` makes of the host without its brackets. */
  ghost function Call(c: Config, script: nat -> Exchange, host: string, literal: Option<Address>, only: Option<Family>,
                      numericOnly: bool, w: World): (r: (CallEnd, World))
  {
    if literal.Some? then (Rows([literal.value]), w)
    else if numericOnly then (GaiError, w)
    else
      var (end, next) := Lookup(c, script, host, only, w.now + c.timeout, w);
      match end
      case Found(records) => (if records == [] then GaiError else Rows(Ips(records)), next)
      case WrongAnswer => (WrongQuestionError, next)
      case _ => (GaiError, next)
  }

  // ---------- the loops ----------

  method WaitForAnswer(inbox: seq<Event>, start: real, until: real, txid: u16, a: Asking)
    returns (reply: Reply, now: real)
    ensures (reply, now) == OverUdp(inbox, start, until, txid, a)
  {
    now := start;
    var i := 0;
    while i < |inbox|
      invariant 0 <= i <= |inbox|
      invariant OverUdp(inbox, start, until, txid, a) == OverUdp(inbox[i..], now, until, txid, a)
    {
      if now >= until {
        return TimedOut, now;
      }
      var e := inbox[i];
      if Max(now, e.at) >= until {
        return TimedOut, until;
      }
      now := Max(now, e.at);
      if e.Breaks? {
        return Broken, now;
      }
      var parsed := ParseReply(e.data, txid, a.name, a.qtype);
      assert inbox[i..][1..] == inbox[i + 1..];
      if !parsed.WrongQuestion? {
        return AsReply(parsed), now;
      }
      i := i + 1;
    }
    return TimedOut, if now >= until then now else until;
  }

  method ReceiveExactly(stream: seq<Event>, count: nat, start: real, until: real) returns (read: Read, now: real)
    ensures (read, now) == Receive(stream, [], count, start, until)
  {
    now := start;
    var got: seq<byte> := [];
    var rest := stream;
    while |got| < count
      invariant |got| <= count
      invariant Receive(stream, [], count, start, until) == Receive(rest, got, count, now, until)
      decreases |rest|
    {
      if now >= until {
        return NotGot(TimedOut), now;
      }
      if rest == [] || Max(now, rest[0].at) >= until {
        return NotGot(TimedOut), until;
      }
      var e := rest[0];
      now := Max(now, e.at);
      if e.Breaks? {
        return NotGot(Broken), now;
      }
      var n := if count - |got| < |e.data| then count - |got| else |e.data|;
      if n == 0 {
        return NotGot(Garbled), now;
      }
      if n < |e.data| {
        return Got(got + e.data[..n], [Arrives(e.at, e.data[n..])] + rest[1..]), now;
      }
      got := got + e.data;
      rest := rest[1..];
    }
    return Got(got, rest), now;
  }

  method AskOverTcp(tcp: Tcp, start: real, txid: u16, a: Asking) returns (reply: Reply, now: real)
    ensures (reply, now) == OverTcp(tcp, start, txid, a)
  {
    if start >= a.deadline {
      return TimedOut, start;
    }
    var remaining := Min(a.deadline - start, a.attemptTimeout);
    if Max(start, tcp.at) >= start + remaining {
      return TimedOut, start + remaining;
    }
    now := Max(start, tcp.at);
    if tcp.Refused? {
      return Broken, now;
    }
    if Max(now, tcp.send.at) >= now + remaining {
      return TimedOut, now + remaining;
    }
    now := Max(now, tcp.send.at);
    if tcp.send.Cut? {
      return Broken, now;
    }
    var prefix, body;
    prefix, now := ReceiveExactly(tcp.stream, 2, now, a.deadline);
    if prefix.NotGot? {
      return prefix.why, now;
    }
    body, now := ReceiveExactly(prefix.rest, U16Of(prefix.data), now, a.deadline);
    if body.NotGot? {
      return body.why, now;
    }
    var parsed := ParseReply(body.data, txid, a.name, a.qtype);
    if parsed.Answer? && parsed.truncated {
      return Garbled, now;
    }
    return AsReply(parsed), now;
  }

  method AskServer(x: Exchange, w: World, a: Asking) returns (reply: Reply, w': World)
    ensures (reply, w') == Ask(x, w, a)
  {
    var t := w.now;
    if x.udp.NoSocket? {
      reply := Broken;
    } else {
      reply, t := WaitForAnswer(x.udp.inbox, w.now, WaitLimit(w.now, a), x.txid, a);
    }
    if !(reply.Answered? && reply.truncated) {
      return reply, World(t, w.udp + 1, w.tcp);
    }
    reply, t := AskOverTcp(x.tcp, t, x.txid, a);
    w' := World(t, w.udp + 1, w.tcp + 1);
  }

  /** Every server in order, each asked `attempts` times, is one countdown of attempts. */
  method QueryServers(c: Config, script: nat -> Exchange, w: World, a: Asking) returns (end: QueryEnd, w': World)
    ensures (end, w') == QueryFrom(script, |c.nameservers| * c.attempts, w, a)
  {
    hide Ask, QueryFrom;
    w' := w;
    ghost var left := Slots(|c.nameservers|, c.attempts);
    SlotsProduct(|c.nameservers|, c.attempts);
    ghost var whole := QueryFrom(script, left, w, a);
    for server := 0 to |c.nameservers|
      invariant left == Slots(|c.nameservers| - server, c.attempts)
      invariant whole == QueryFrom(script, left, w', a)
    {
      ghost var later := Slots(|c.nameservers| - server - 1, c.attempts);
      for attempt := 0 to c.attempts
        invariant left == later + (c.attempts - attempt)
        invariant whole == QueryFrom(script, left, w', a)
      {
        QueryStep(script, left, w', a);
        if w'.now >= a.deadline {
          return GaveUp, w';
        }
        var reply;
        reply, w' := AskServer(script(w'.udp), w', a);
        if reply.Answered? {
          return Records(reply.records), w';
        }
        if !Retried(reply) {
          return Escaped, w';
        }
        left := left - 1;
      }
    }
    QueryStep(script, 0, w', a);
    end := GaveUp;
  }

  /** The attempts that so many servers are given. */
  ghost function Slots(servers: nat, attempts: nat): (n: nat) {
    if servers == 0 then 0 else attempts + Slots(servers - 1, attempts)
  }

  lemma {:induction false} SlotsProduct(servers: nat, attempts: nat)
    ensures Slots(servers, attempts) == servers * attempts
  {
    if servers > 0 {
      SlotsProduct(servers - 1, attempts);
      assert servers * attempts == (servers - 1) * attempts + attempts;
    }
  }

  lemma QueryStep(script: nat -> Exchange, left: nat, w: World, a: Asking)
    ensures left == 0 || w.now >= a.deadline ==> QueryFrom(script, left, w, a) == (GaveUp, w)
    ensures left > 0 && w.now < a.deadline ==>
              var (reply, next) := Ask(script(w.udp), w, a);
              QueryFrom(script, left, w, a) ==
              if reply.Answered? then (Records(reply.records), next)
              else if Retried(reply) then QueryFrom(script, left - 1, next, a)
              else (Escaped, next)
  {
    hide Ask;
  }

  method LookUp(c: Config, script: nat -> Exchange, host: string, only: Option<Family>, deadline: real, w: World)
    returns (end: LookupEnd, w': World)
    ensures (end, w') == Lookup(c, script, host, only, deadline, w)
  {
    hide QueryFrom, Encode, Decode, Ahead;
    w' := w;
    var question := EncodeName(host);
    if question.None? {
      return NoName, w;
    }
    var name, _ := DecodeName(question.value, 0);
    NameOfQuestion(host);
    var out: seq<Record> := [];
    ghost var whole := LookupFrom(c, script, c.families, only, StripDots(host), deadline, w);
    AheadEnds(out, whole);
    assert c.families[0..] == c.families;
    for i := 0 to |c.families|
      invariant whole == Ahead(out, LookupFrom(c, script, c.families[i..], only, StripDots(host), deadline, w'))
    {
      var wanted := c.families[i];
      assert c.families[i..][1..] == c.families[i + 1..];
      ghost var rest := LookupFrom(c, script, c.families[i..], only, StripDots(host), deadline, w');
      AheadEnds(out, rest);
      if !InScope(wanted, only) {
        continue;
      }
      var q;
      q, w' := QueryServers(c, script, w', AskingOf(c, name.value.text, wanted, deadline));
      if q.GaveUp? {
        return NoAnswer, w';
      }
      if q.Escaped? {
        return WrongAnswer, w';
      }
      AheadTwice(out, q.records, LookupFrom(c, script, c.families[i + 1..], only, StripDots(host), deadline, w'));
      out := out + q.records;
    }
    AheadEnds(out, (Found([]), w'));
    end := Found(out);
  }

  /** `_name_of` reads back the name that was asked. */
  lemma NameOfQuestion(host: string)
    requires Encode(host).Some?
    ensures Decode(Encode(host).value, 0) == Some(Decoded(StripDots(host), |Encode(host).value|))
  {
    hide Encode, Decode, StripDots;
    EncodeThenDecode(host, [], []);
    assert [] + Encode(host).value + [] == Encode(host).value;
  }

  lemma AheadEnds(out: seq<Record>, r: (LookupEnd, World))
    ensures Ahead([], r) == r
    ensures !r.0.Found? ==> Ahead(out, r) == r
    ensures Ahead(out, (Found([]), r.1)) == (Found(out), r.1)
  {
    assert r.0.Found? ==> [] + r.0.records == r.0.records;
    assert out + [] == out;
  }

  lemma AheadTwice(a: seq<Record>, b: seq<Record>, r: (LookupEnd, World))
    ensures Ahead(a, Ahead(b, r)) == Ahead(a + b, r)
  {
    if r.0.Found? {
      assert a + (b + r.0.records) == a + b + r.0.records;
    }
  }

  /** A resolver call: a literal is never put on the wire, and an empty answer is an error. */
  method CallResolver(c: Config, script: nat -> Exchange, host: string, literal: Option<Address>, only: Option<Family>,
                      numericOnly: bool, w: World)
    returns (end: CallEnd, w': World)
    ensures (end, w') == Call(c, script, host, literal, only, numericOnly, w)
  {
    hide Lookup;
    if literal.Some? {
      return Rows([literal.value]), w;
    }
    if numericOnly {
      return GaiError, w;
    }
    var found;
    found, w' := LookUp(c, script, host, only, w.now + c.timeout, w);
    if found.WrongAnswer? {
      return WrongQuestionError, w';
    }
    if !found.Found? || found.records == [] {
      return GaiError, w';
    }
    return Rows(Ips(found.records)), w';
  }
}

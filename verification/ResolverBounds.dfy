/** What one resolver call costs, what a forgery can do to it, and where each answer comes from. */
module ResolverBounds {
  import opened Wire
  import opened Names
  import opened Messages
  import opened Networks
  import opened StubResolver

  // ---------- the deadline and the work ----------

  /** Time only moves forward, and never past a limit that was still ahead. */
  ghost predicate Within(start: real, end: real, limit: real) {
    start <= end && (end <= limit || end == start)
  }

  lemma {:induction false} UdpInTime(inbox: seq<Event>, now: real, until: real, txid: u16, a: Asking)
    ensures Within(now, OverUdp(inbox, now, until, txid, a).1, until)
    ensures !OverUdp(inbox, now, until, txid, a).0.Foreign?
    decreases |inbox|
  {
    hide Parse;
    if now < until && inbox != [] {
      UdpInTime(inbox[1..], Max(now, inbox[0].at), until, txid, a);
    }
  }

  lemma {:induction false} ReceiveInTime(stream: seq<Event>, got: seq<byte>, count: nat, now: real, until: real)
    ensures Within(now, Receive(stream, got, count, now, until).1, until)
    decreases |stream|
  {
    if now < until && stream != [] && !stream[0].Breaks? {
      ReceiveInTime(stream[1..], got + stream[0].data, count, Max(now, stream[0].at), until);
    }
  }

  /** The question is still being sent over TCP when the deadline passes: `sendall` was given its timeout
      before the connection was made, and uses it up from there. */
  predicate SendOverruns(tcp: Tcp, now: real, a: Asking) {
    && now < a.deadline && UpAt(tcp, now) < WaitLimit(now, a) && tcp.Connected?
    && SentAt(tcp, now) > a.deadline && SendLimit(tcp, now, a) > a.deadline
  }

  /** A TCP exchange ends by the deadline unless its send overruns it, and then by one attempt's timeout
      more, with nothing to show for it. */
  lemma TcpInTime(tcp: Tcp, now: real, txid: u16, a: Asking)
    requires a.attemptTimeout > 0.0
    ensures Within(now, OverTcp(tcp, now, txid, a).1, a.deadline + a.attemptTimeout)
    ensures now <= a.deadline ==> (OverTcp(tcp, now, txid, a).1 > a.deadline <==> SendOverruns(tcp, now, a))
    ensures SendOverruns(tcp, now, a) ==> Retried(OverTcp(tcp, now, txid, a).0)
  {
    hide Parse, Receive;
    if now < a.deadline && tcp.Connected? {
      var (prefix, t) := Receive(tcp.stream, [], 2, SentAt(tcp, now), a.deadline);
      ReceiveInTime(tcp.stream, [], 2, SentAt(tcp, now), a.deadline);
      if prefix.Got? {
        ReceiveInTime(prefix.rest, [], U16Of(prefix.data), t, a.deadline);
      }
      if SentAt(tcp, now) >= a.deadline {
        TooLate(tcp.stream, 2, SentAt(tcp, now), a.deadline);
      }
    }
  }

  lemma TooLate(stream: seq<Event>, count: nat, now: real, until: real)
    requires count > 0 && now >= until
    ensures Receive(stream, [], count, now, until) == (NotGot(TimedOut), now)
  {
  }

  /** One attempt is one UDP exchange, at most one TCP exchange, and ends by the deadline or by one
      attempt's timeout after it. */
  lemma AskCost(x: Exchange, w: World, a: Asking)
    requires a.attemptTimeout > 0.0
    ensures var w' := Ask(x, w, a).1;
            && Within(w.now, w'.now, a.deadline + a.attemptTimeout)
            && w'.udp == w.udp + 1 && w.tcp <= w'.tcp <= w.tcp + 1
  {
    hide OverTcp, OverUdp;
    if x.udp.Open? {
      UdpInTime(x.udp.inbox, w.now, WaitLimit(w.now, a), x.txid, a);
    }
    TcpInTime(x.tcp, UdpPart(x, w.now, a).1, x.txid, a);
  }

  lemma {:induction false} QueryCost(script: nat -> Exchange, left: nat, w: World, a: Asking)
    requires a.attemptTimeout > 0.0
    ensures var w' := QueryFrom(script, left, w, a).1;
            && Within(w.now, w'.now, a.deadline + a.attemptTimeout)
            && w.udp <= w'.udp <= w.udp + left
            && w.tcp <= w'.tcp <= w.tcp + (w'.udp - w.udp)
            && (QueryFrom(script, left, w, a).0.GaveUp? && w'.now < a.deadline ==> w'.udp == w.udp + left)
    decreases left
  {
    hide Ask;
    if left > 0 && w.now < a.deadline {
      AskCost(script(w.udp), w, a);
      QueryCost(script, left - 1, Ask(script(w.udp), w, a).1, a);
    }
  }

  lemma {:induction false} FamiliesCost(c: Config, script: nat -> Exchange, families: seq<Family>, only: Option<Family>,
                                        name: string, deadline: real, w: World)
    requires ValidConfig(c)
    ensures var w' := LookupFrom(c, script, families, only, name, deadline, w).1;
            && Within(w.now, w'.now, deadline + c.attemptTimeout)
            && w.udp <= w'.udp <= w.udp + |families| * (|c.nameservers| * c.attempts)
            && w.tcp <= w'.tcp <= w.tcp + (w'.udp - w.udp)
    decreases |families|
  {
    hide QueryFrom;
    if families != [] {
      var budget := |c.nameservers| * c.attempts;
      assert |families| * budget == |families[1..]| * budget + budget;
      if InScope(families[0], only) {
        var a := AskingOf(c, name, families[0], deadline);
        QueryCost(script, budget, w, a);
        FamiliesCost(c, script, families[1..], only, name, deadline, QueryFrom(script, budget, w, a).1);
      } else {
        FamiliesCost(c, script, families[1..], only, name, deadline, w);
      }
    }
  }

  /** One call ends by its start plus `timeout` plus one attempt's timeout, after at most families x
      nameservers x attempts UDP exchanges, each followed by at most one TCP exchange, whatever the network
      does. `Attempts.CallOverruns` says when the second timeout is spent at all. */
  lemma CallCost(c: Config, script: nat -> Exchange, host: string, literal: Option<Address>, only: Option<Family>,
                 numericOnly: bool, w: World)
    requires ValidConfig(c)
    ensures var w' := Call(c, script, host, literal, only, numericOnly, w).1;
            && w.now <= w'.now <= w.now + c.timeout + c.attemptTimeout
            && w'.udp - w.udp <= |c.families| * (|c.nameservers| * c.attempts)
            && w'.tcp - w.tcp <= w'.udp - w.udp
  {
    hide LookupFrom, Encode, StripDots, Ips;
    var budget: nat := |c.nameservers| * c.attempts;
    assert |c.families| * budget >= 0;
    FamiliesCost(c, script, c.families, only, StripDots(host), w.now + c.timeout, w);
  }

  // ---------- forgeries ----------

  predicate InOrder(inbox: seq<Event>) {
    forall i, j :: 0 <= i < j < |inbox| ==> inbox[i].at <= inbox[j].at
  }

  ghost predicate Forged(e: Event, txid: u16, a: Asking) {
    e.Arrives? && Parse(e.data, txid, a.name, a.qtype).WrongQuestion?
  }

  /** The inbox without the datagrams that answer some other question. */
  ghost function Genuine(inbox: seq<Event>, txid: u16, a: Asking): (out: seq<Event>) {
    if inbox == [] then []
    else if Forged(inbox[0], txid, a) then Genuine(inbox[1..], txid, a)
    else [inbox[0]] + Genuine(inbox[1..], txid, a)
  }

  /** A forgery is neither a substitution nor a delay: dropping every wrong-question datagram from an
      inbox changes neither what one UDP exchange returns nor when. */
  lemma {:induction false} ForgeriesChangeNothing(inbox: seq<Event>, now: real, until: real, txid: u16, a: Asking)
    requires InOrder(inbox)
    ensures OverUdp(inbox, now, until, txid, a) == OverUdp(Genuine(inbox, txid, a), now, until, txid, a)
    decreases |inbox|
  {
    hide Parse;
    if now < until && inbox != [] {
      var t := Max(now, inbox[0].at);
      ForgeriesChangeNothing(inbox[1..], t, until, txid, a);
      var rest := Genuine(inbox[1..], txid, a);
      if Forged(inbox[0], txid, a) {
        if t < until {
          LaterStart(inbox[1..], now, t, until, txid, a);
        } else {
          AllLate(inbox, now, until, txid, a);
        }
      } else {
        assert ([inbox[0]] + rest)[1..] == rest;
      }
    }
  }

  /** Starting the wait later, but no later than the next arrival, gives the same outcome. */
  lemma {:induction false} LaterStart(inbox: seq<Event>, now: real, t: real, until: real, txid: u16, a: Asking)
    requires InOrder(inbox) && now <= t < until
    requires forall i :: 0 <= i < |inbox| ==> Max(now, inbox[i].at) >= t
    ensures OverUdp(Genuine(inbox, txid, a), t, until, txid, a) == OverUdp(Genuine(inbox, txid, a), now, until, txid, a)
    decreases |inbox|
  {
    hide Parse;
    if inbox != [] && Forged(inbox[0], txid, a) {
      LaterStart(inbox[1..], now, t, until, txid, a);
    }
  }

  /** Nothing that arrives at or after the limit is read. */
  lemma {:induction false} AllLate(inbox: seq<Event>, now: real, until: real, txid: u16, a: Asking)
    requires InOrder(inbox) && now < until && (inbox != [] ==> inbox[0].at >= until)
    ensures OverUdp(Genuine(inbox, txid, a), now, until, txid, a) == (TimedOut, until)
    decreases |inbox|
  {
    hide Parse;
    if inbox != [] && Forged(inbox[0], txid, a) {
      AllLate(inbox[1..], now, until, txid, a);
    }
  }

  // ---------- framing ----------

  /** The bytes of a stream that can be read before `until`, up to the first close or error. */
  function Timely(stream: seq<Event>, now: real, until: real): (bytes: seq<byte>)
    decreases |stream|
  {
    if stream == [] || now >= until || Max(now, stream[0].at) >= until then []
    else if stream[0].Breaks? || stream[0].data == [] then []
    else stream[0].data + Timely(stream[1..], Max(now, stream[0].at), until)
  }

  /** Reading `count` bytes succeeds exactly when that many are timely, yields exactly the first
      `count` of them however they were chunked, and leaves the rest unread. */
  lemma {:induction false} ReceiveMeaning(stream: seq<Event>, got: seq<byte>, count: nat, now: real, until: real)
    requires |got| <= count
    ensures var (read, t) := Receive(stream, got, count, now, until);
            var bytes := got + Timely(stream, now, until);
            && (read.Got? <==> count <= |bytes|)
            && (read.Got? ==> read.data == bytes[..count] && Timely(read.rest, t, until) == bytes[count..])
    decreases |stream|
  {
    var bytes := got + Timely(stream, now, until);
    if |got| < count && Timely(stream, now, until) != [] {
      var t := Max(now, stream[0].at);
      var later := Timely(stream[1..], t, until);
      assert bytes == got + stream[0].data + later;
      var n := count - |got|;
      if n < |stream[0].data| {
        var rest := [Arrives(stream[0].at, stream[0].data[n..])] + stream[1..];
        assert rest[1..] == stream[1..];
        assert Timely(rest, t, until) == stream[0].data[n..] + later;
      } else {
        ReceiveMeaning(stream[1..], got + stream[0].data, count, t, until);
      }
    }
  }

  /** Two streams with the same timely bytes are read alike. */
  lemma ChunkingIsInvisible(s1: seq<Event>, s2: seq<Event>, count: nat, now1: real, now2: real, until: real)
    requires Timely(s1, now1, until) == Timely(s2, now2, until)
    ensures var r1, r2 := Receive(s1, [], count, now1, until).0, Receive(s2, [], count, now2, until).0;
            (r1.Got? <==> r2.Got?) && (r1.Got? ==> r1.data == r2.data && |r1.data| == count)
  {
    ReceiveMeaning(s1, [], count, now1, until);
    ReceiveMeaning(s2, [], count, now2, until);
  }

  /** The message a stream delivers: the bytes its two-byte prefix delimits among those that arrived in time. */
  function Delivered(tcp: Tcp, now: real, a: Asking): (message: Option<seq<byte>>) {
    if !(now < a.deadline && UpAt(tcp, now) < WaitLimit(now, a) && tcp.Connected?) then None
    else if !(SentAt(tcp, now) < SendLimit(tcp, now, a) && tcp.send.Sent?) then None
    else
      var bytes := Timely(tcp.stream, SentAt(tcp, now), a.deadline);
      if |bytes| < 2 || |bytes| < 2 + U16(bytes, 0) then None else Some(bytes[2..2 + U16(bytes, 0)])
  }

  /** A TCP exchange is the parse of the message delivered, and a truncated one is malformed; with no
      message delivered it fails in a way that is tried again. */
  lemma TcpProvenance(tcp: Tcp, now: real, txid: u16, a: Asking)
    ensures var reply, message := OverTcp(tcp, now, txid, a).0, Delivered(tcp, now, a);
            if message.None? then Retried(reply)
            else
              var p := Parse(message.value, txid, a.name, a.qtype);
              reply == if p.Answer? && p.truncated then Garbled else AsReply(p)
  {
    hide Parse, Receive, Timely;
    if tcp.Connected? {
      var bytes := Timely(tcp.stream, SentAt(tcp, now), a.deadline);
      ReceiveMeaning(tcp.stream, [], 2, SentAt(tcp, now), a.deadline);
      assert [] + bytes == bytes;
      var (prefix, t) := Receive(tcp.stream, [], 2, SentAt(tcp, now), a.deadline);
      if prefix.Got? {
        assert U16Of(prefix.data) == U16(bytes, 0);
        ReceiveMeaning(prefix.rest, [], U16(bytes, 0), t, a.deadline);
        assert [] + Timely(prefix.rest, t, a.deadline) == bytes[2..];
        assert |bytes| >= 2 + U16(bytes, 0) ==> bytes[2..][..U16(bytes, 0)] == bytes[2..2 + U16(bytes, 0)];
      }
    }
  }

  // ---------- datagrams ----------

  /** The datagram at `i` is the first that is not for another question, and it and all before it came in time. */
  ghost predicate FirstGenuine(inbox: seq<Event>, i: nat, now: real, until: real, txid: u16, a: Asking) {
    && i < |inbox| && inbox[i].Arrives? && !Forged(inbox[i], txid, a)
    && now < until
    && (forall k :: 0 <= k < i ==> Forged(inbox[k], txid, a))
    && (forall k :: 0 <= k <= i ==> inbox[k].at < until)
  }

  /** The moment by which all of these have arrived. */
  function Latest(events: seq<Event>, now: real): (t: real)
  {
    if events == [] then now else Latest(events[1..], Max(now, events[0].at))
  }

  /** What UDP returns is the parse of the first genuine datagram, at the moment it arrived. */
  lemma {:induction false} UdpFirst(inbox: seq<Event>, i: nat, now: real, until: real, txid: u16, a: Asking)
    requires FirstGenuine(inbox, i, now, until, txid, a)
    ensures OverUdp(inbox, now, until, txid, a)
         == (AsReply(Parse(inbox[i].data, txid, a.name, a.qtype)), Latest(inbox[..i + 1], now))
    decreases i
  {
    hide Parse;
    assert inbox[..i + 1][1..] == inbox[1..][..i];
    if i > 0 {
      assert Forged(inbox[0], txid, a);
      assert inbox[0].at < until;
      UdpFirst(inbox[1..], i - 1, Max(now, inbox[0].at), until, txid, a);
    }
  }

  /** And when UDP neither times out nor breaks, there is such a datagram. */
  lemma {:induction false} UdpProvenance(inbox: seq<Event>, now: real, until: real, txid: u16, a: Asking)
    returns (i: nat)
    requires var reply := OverUdp(inbox, now, until, txid, a).0; !reply.TimedOut? && !reply.Broken?
    ensures FirstGenuine(inbox, i, now, until, txid, a)
    decreases |inbox|
  {
    hide Parse;
    if Forged(inbox[0], txid, a) {
      i := UdpProvenance(inbox[1..], Max(now, inbox[0].at), until, txid, a);
      i := i + 1;
    } else {
      i := 0;
    }
  }
}

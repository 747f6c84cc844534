/** Connecting to validated addresses and to nothing else: failover, the attempt cap, the peer check,
    and what happens to every socket on the way. */
module Connecting {
  import opened Wire
  import opened Networks
  import Registry
  import Verdicts
  import opened Policies
  import opened Resolving

  /** What the n-th socket meets, call by call; `name` is `getpeername` failing and `peer` what it says otherwise. */
  datatype Attempt = Attempt(
    create: Option<Fault>, option: Option<Fault>, bind: Option<Fault>, connect: Option<Fault>,
    name: Option<Fault>, peer: Address)

  /** What the caller asked to have done to each socket. */
  datatype Settings = Settings(options: bool, source: bool)

  /** How one attempt ends. `Retry` is failed over from, `Abort` and `Mismatch` are not. */
  datatype Step = Opened | Mismatch | Retry(timeout: bool) | Abort

  function AfterFault(f: Fault): (step: Step) {
    match f
    case Timeout => Retry(true)
    case OsError => Retry(false)
    case OtherError => Abort
  }

  /** The steps of `_open` in order: socket, options, bind, connect, peer. */
  function OpenStep(at: Attempt, ip: Address, s: Settings): (step: Step) {
    if at.create.Some? then AfterFault(at.create.value)
    else if s.options && at.option.Some? then AfterFault(at.option.value)
    else if s.source && at.bind.Some? then AfterFault(at.bind.value)
    else if at.connect.Some? then AfterFault(at.connect.value)
    else if at.name.Some? then AfterFault(at.name.value)
    else if at.peer != ip then Mismatch
    else Opened
  }

  /** Where a socket is told to connect: the resolver's socket address passed through whole, or an address
      and a port alone. */
  datatype Target = Whole(sockaddr: SockAddr) | Bare(ip: Address, port: int)

  /** The address a target leads to, if it is one at all. */
  function Aim(t: Target): (a: Option<Address>) {
    match t case Whole(sockaddr) => sockaddr.host case Bare(ip, _) => Some(ip)
  }

  function PortOf(t: Target): (port: int) {
    match t case Whole(sockaddr) => sockaddr.port case Bare(_, port) => port
  }

  /** What one attempt dials: nothing when it fails before the connect call. */
  function DialOf(at: Attempt, t: Target, s: Settings): (d: Option<Target>) {
    if at.create.Some? || (s.options && at.option.Some?) || (s.source && at.bind.Some?) then None else Some(t)
  }

  // ---------- a run of attempts ----------

  /** How a sequence of attempts ends, by the first that is not failed over from. */
  datatype Outcome = Success(index: nat) | PeerMismatch(index: nat) | Aborted(index: nat) | AllTimedOut | AllFailed

  function StopAt(steps: seq<Step>): (i: nat)
    ensures i <= |steps|
    ensures forall j :: 0 <= j < i ==> steps[j].Retry?
    ensures i < |steps| ==> !steps[i].Retry?
  {
    if steps == [] || !steps[0].Retry? then 0 else 1 + StopAt(steps[1..])
  }

  function OutcomeOf(steps: seq<Step>): (o: Outcome) {
    var i := StopAt(steps);
    if i < |steps| then
      match steps[i]
      case Opened => Success(i)
      case Mismatch => PeerMismatch(i)
      case Abort => Aborted(i)
    else if forall j :: 0 <= j < |steps| ==> steps[j] == Retry(true) then AllTimedOut
    else AllFailed
  }

  function Tried(steps: seq<Step>): (n: nat)
    ensures n <= |steps|
  {
    if StopAt(steps) < |steps| then StopAt(steps) + 1 else |steps|
  }

  /** The outcome read off the steps: success at the first address not failed over from, and only there;
      a timeout exactly when every attempt timed out; a mismatch ends the run whatever could follow. */
  lemma OutcomeMeaning(steps: seq<Step>)
    ensures forall i: nat :: OutcomeOf(steps) == Success(i) <==>
              i < |steps| && steps[i].Opened? && forall j :: 0 <= j < i ==> steps[j].Retry?
    ensures forall i: nat :: OutcomeOf(steps) == PeerMismatch(i) <==>
              i < |steps| && steps[i].Mismatch? && forall j :: 0 <= j < i ==> steps[j].Retry?
    ensures forall i: nat :: OutcomeOf(steps) == Aborted(i) <==>
              i < |steps| && steps[i].Abort? && forall j :: 0 <= j < i ==> steps[j].Retry?
    ensures OutcomeOf(steps).AllTimedOut? <==> forall j :: 0 <= j < |steps| ==> steps[j] == Retry(true)
    ensures OutcomeOf(steps).AllFailed? <==>
              (forall j :: 0 <= j < |steps| ==> steps[j].Retry?)
              && exists j :: 0 <= j < |steps| && steps[j] == Retry(false)
  {
    var i := StopAt(steps);
    forall k | 0 <= k < |steps| && !steps[k].Retry? && forall j :: 0 <= j < k ==> steps[j].Retry?
      ensures k == i
    {
    }
    if i == |steps| && !(forall j :: 0 <= j < |steps| ==> steps[j] == Retry(true)) {
      var j :| 0 <= j < |steps| && steps[j] != Retry(true);
      assert steps[j] == Retry(false);
    }
  }

  // ---------- sockets ----------

  /** The part of the kernel a connection touches: sockets are numbered as they are asked for, and `dials`
      holds what each was told to connect to, if it got that far. */
  class Kernel {
    const script: nat -> Attempt
    var asked: nat
    var open: set<nat>
    var dials: seq<Option<Target>>

    /** Only sockets already asked for are open, and each has its place in the log. */
    ghost predicate Valid()
      reads this
    {
      |dials| == asked && forall s :: s in open ==> s < asked
    }

    constructor (script: nat -> Attempt)
      ensures this.script == script && asked == 0 && open == {} && dials == [] && Valid()
    {
      this.script := script;
      asked, open, dials := 0, {}, [];
    }

    method Socket() returns (s: nat, fault: Option<Fault>)
      requires Valid()
      modifies this
      ensures Valid() && asked == old(asked) + 1 && s == old(asked)
      ensures fault == script(s).create
      ensures open == if fault.None? then old(open) + {s} else old(open)
      ensures dials == old(dials) + [None]
    {
      s := asked;
      asked := asked + 1;
      dials := dials + [None];
      fault := script(s).create;
      if fault.None? {
        open := open + {s};
      }
    }

    method Close(s: nat)
      requires Valid()
      modifies this`open
      ensures Valid() && open == old(open) - {s}
    {
      open := open - {s};
    }

    /** The connect call, the only one that sends anything anywhere. */
    method Dial(s: nat, t: Target) returns (fault: Option<Fault>)
      requires Valid() && s in open
      modifies this`dials
      ensures Valid() && dials == old(dials)[s := Some(t)]
      ensures fault == script(s).connect
    {
      dials := dials[s := Some(t)];
      fault := script(s).connect;
    }

    /** One socket to one validated answer: its socket address is dialled whole, or nothing is; and the
        socket is connected and confirmed, or closed again on every way out. */
    method OpenOne(e: Endpoint, settings: Settings) returns (step: Step, s: nat)
      requires Valid()
      modifies this
      ensures Valid() && asked == old(asked) + 1 && s == old(asked)
      ensures step == OpenStep(script(old(asked)), e.ip, settings)
      ensures dials == old(dials) + [DialOf(script(old(asked)), Whole(e.sockaddr), settings)]
      ensures open == if step.Opened? then old(open) + {old(asked)} else old(open)
      ensures step.Opened? ==> script(old(asked)).peer == e.ip
    {
      var fault;
      s, fault := Socket();
      if fault.Some? {
        return AfterFault(fault.value), s;
      }
      var at := script(s);
      if settings.options && at.option.Some? {
        Close(s);
        return AfterFault(at.option.value), s;
      }
      if settings.source && at.bind.Some? {
        Close(s);
        return AfterFault(at.bind.value), s;
      }
      fault := Dial(s, Whole(e.sockaddr));
      if fault.Some? {
        Close(s);
        return AfterFault(fault.value), s;
      }
      if at.name.Some? {
        Close(s);
        return AfterFault(at.name.value), s;
      }
      if at.peer != e.ip {
        Close(s);
        return Mismatch, s;
      }
      return Opened, s;
    }
  }

  // ---------- connect ----------

  /** `connect` returns a socket or raises; `skipped` counts the validated addresses never tried. */
  datatype ConnectEnd =
    | Connected(socket: nat, endpoint: Endpoint)
    | NoAddresses
    | Blocked
    | TimedOut(skipped: nat)
    | Unreachable(skipped: nat)
    | Escaped

  function Capped(addresses: seq<Endpoint>, cap: nat): (attempted: seq<Endpoint>) {
    addresses[..if |addresses| < cap then |addresses| else cap]
  }

  function StepsOf(script: nat -> Attempt, start: nat, attempted: seq<Endpoint>, s: Settings): (steps: seq<Step>)
    ensures |steps| == |attempted|
  {
    seq(|attempted|, i requires 0 <= i < |attempted| => OpenStep(script(start + i), attempted[i].ip, s))
  }

  /** What a run of blocking attempts dials, socket by socket. */
  function Dials(script: nat -> Attempt, start: nat, attempted: seq<Endpoint>, s: Settings): (log: seq<Option<Target>>)
    ensures |log| == |attempted|
  {
    seq(|attempted|, i requires 0 <= i < |attempted| => DialOf(script(start + i), Whole(attempted[i].sockaddr), s))
  }

  function EndOf(o: Outcome, start: nat, addresses: seq<Endpoint>, cap: nat): (end: ConnectEnd)
    requires o.Success? ==> o.index < |addresses|
  {
    match o
    case Success(i) => Connected(start + i, addresses[i])
    case PeerMismatch(_) => Blocked
    case Aborted(_) => Escaped
    case AllTimedOut => TimedOut(|addresses| - |Capped(addresses, cap)|)
    case AllFailed => Unreachable(|addresses| - |Capped(addresses, cap)|)
  }

  // ---------- the end of a run, off what the sockets meet ----------

  /** The calls made on one socket, in order, and how each fails if it does. */
  function Calls(at: Attempt, s: Settings): (calls: seq<Option<Fault>>) {
    [at.create] + (if s.options then [at.option] else []) + (if s.source then [at.bind] else []) + [at.connect, at.name]
  }

  /** The first call that fails, fails in this way. */
  predicate FailsFirst(calls: seq<Option<Fault>>, f: Fault) {
    exists k :: 0 <= k < |calls| && calls[k] == Some(f) && forall j :: 0 <= j < k ==> calls[j].None?
  }

  predicate NoneFails(calls: seq<Option<Fault>>) {
    forall k :: 0 <= k < |calls| ==> calls[k].None?
  }

  /** The `i`-th attempt of a run fails first in this way. */
  predicate Fails(script: nat -> Attempt, start: nat, i: nat, s: Settings, f: Fault) {
    FailsFirst(Calls(script(start + i), s), f)
  }

  /** The `i`-th attempt has every call succeed, and the peer is, or is not, the one that was checked. */
  predicate Lands(script: nat -> Attempt, start: nat, i: nat, s: Settings, ip: Address, there: bool) {
    NoneFails(Calls(script(start + i), s)) && there == (script(start + i).peer == ip)
  }

  /** Every attempt before the `i`-th fails in a way that is failed over from. */
  predicate FailedOver(script: nat -> Attempt, start: nat, i: nat, s: Settings) {
    forall j :: 0 <= j < i ==> Fails(script, start, j, s, Timeout) || Fails(script, start, j, s, OsError)
  }

  /** How many addresses may be tried. */
  function Tries(addresses: seq<Endpoint>, cap: nat): (n: nat) {
    if |addresses| < cap then |addresses| else cap
  }

  /** How a run over these addresses ends, by the sockets alone: a timeout when every attempt within the cap times
      out first, an error when each does or fails with an OSError and one with an OSError, and otherwise what
      the first attempt not failed over from comes to. The addresses beyond the cap are counted. */
  ghost predicate EndsAs(end: ConnectEnd, script: nat -> Attempt, start: nat, addresses: seq<Endpoint>, cap: nat,
                         s: Settings)
  {
    var n := Tries(addresses, cap);
    match end
    case TimedOut(skipped) =>
      skipped == |addresses| - n && forall i :: 0 <= i < n ==> Fails(script, start, i, s, Timeout)
    case Unreachable(skipped) =>
      && skipped == |addresses| - n && FailedOver(script, start, n, s)
      && exists i :: 0 <= i < n && Fails(script, start, i, s, OsError)
    case Connected(socket, endpoint) =>
      && start <= socket < start + n && endpoint == addresses[socket - start]
      && FailedOver(script, start, socket - start, s)
      && Lands(script, start, socket - start, s, endpoint.ip, true)
    case Blocked =>
      exists i :: 0 <= i < n && FailedOver(script, start, i, s) && Lands(script, start, i, s, addresses[i].ip, false)
    case Escaped =>
      exists i :: 0 <= i < n && FailedOver(script, start, i, s) && Fails(script, start, i, s, OtherError)
    case NoAddresses => false
  }

  /** One attempt's step is its first failing call, and with none failing the peer. */
  lemma StepMeaning(at: Attempt, ip: Address, s: Settings)
    ensures OpenStep(at, ip, s) == Retry(true) <==> FailsFirst(Calls(at, s), Timeout)
    ensures OpenStep(at, ip, s) == Retry(false) <==> FailsFirst(Calls(at, s), OsError)
    ensures OpenStep(at, ip, s) == Abort <==> FailsFirst(Calls(at, s), OtherError)
    ensures OpenStep(at, ip, s) == Opened <==> NoneFails(Calls(at, s)) && at.peer == ip
    ensures OpenStep(at, ip, s) == Mismatch <==> NoneFails(Calls(at, s)) && at.peer != ip
  {
    hide FailsFirst, NoneFails;
    var calls := Calls(at, s);
    var option: nat := 1;
    var bind: nat := if s.options then 2 else 1;
    var connect: nat := if s.source then bind + 1 else bind;
    assert |calls| == connect + 2 && calls[0] == at.create;
    assert calls[connect] == at.connect && calls[connect + 1] == at.name;
    assert s.options ==> calls[option] == at.option;
    assert s.source ==> calls[bind] == at.bind;
    assert forall j :: 0 <= j < connect && calls[j].Some? ==>
                         j == 0 || (s.options && j == 1) || (s.source && j == bind);
    hide Calls;
    if at.create.Some? {
      FailsAt(calls, 0);
    } else if s.options && at.option.Some? {
      FailsAt(calls, option);
    } else if s.source && at.bind.Some? {
      FailsAt(calls, bind);
    } else if at.connect.Some? {
      FailsAt(calls, connect);
    } else if at.name.Some? {
      FailsAt(calls, connect + 1);
    } else {
      NothingFails(calls);
    }
  }

  /** One way of failing comes first. */
  lemma FailsAt(calls: seq<Option<Fault>>, k: nat)
    requires k < |calls| && calls[k].Some? && forall j :: 0 <= j < k ==> calls[j].None?
    ensures forall f :: FailsFirst(calls, f) <==> calls[k] == Some(f)
    ensures !NoneFails(calls)
  {
  }

  lemma NothingFails(calls: seq<Option<Fault>>)
    requires forall k :: 0 <= k < |calls| ==> calls[k].None?
    ensures NoneFails(calls) && forall f :: !FailsFirst(calls, f)
  {
  }

  lemma StepsMeaning(script: nat -> Attempt, start: nat, addresses: seq<Endpoint>, cap: nat, s: Settings)
    ensures |Capped(addresses, cap)| == Tries(addresses, cap)
    ensures forall i :: 0 <= i < Tries(addresses, cap) ==>
              var step := StepsOf(script, start, Capped(addresses, cap), s)[i];
              && (step == Retry(true) <==> Fails(script, start, i, s, Timeout))
              && (step == Retry(false) <==> Fails(script, start, i, s, OsError))
              && (step == Abort <==> Fails(script, start, i, s, OtherError))
              && (step == Opened <==> Lands(script, start, i, s, addresses[i].ip, true))
              && (step == Mismatch <==> Lands(script, start, i, s, addresses[i].ip, false))
  {
    hide OpenStep, Calls, FailsFirst, NoneFails;
    forall i | 0 <= i < Tries(addresses, cap)
      ensures var step := StepsOf(script, start, Capped(addresses, cap), s)[i];
              && (step == Retry(true) <==> Fails(script, start, i, s, Timeout))
              && (step == Retry(false) <==> Fails(script, start, i, s, OsError))
              && (step == Abort <==> Fails(script, start, i, s, OtherError))
              && (step == Opened <==> Lands(script, start, i, s, addresses[i].ip, true))
              && (step == Mismatch <==> Lands(script, start, i, s, addresses[i].ip, false))
    {
      StepMeaning(script(start + i), addresses[i].ip, s);
    }
  }

  lemma OutcomeFacts(script: nat -> Attempt, start: nat, addresses: seq<Endpoint>, cap: nat, s: Settings)
    ensures var o := OutcomeOf(StepsOf(script, start, Capped(addresses, cap), s));
            var n := Tries(addresses, cap);
            && (forall i: nat :: o == Success(i) <==>
                  i < n && FailedOver(script, start, i, s) && Lands(script, start, i, s, addresses[i].ip, true))
            && (forall i: nat :: o == PeerMismatch(i) <==>
                  i < n && FailedOver(script, start, i, s) && Lands(script, start, i, s, addresses[i].ip, false))
            && (forall i: nat :: o == Aborted(i) <==>
                  i < n && FailedOver(script, start, i, s) && Fails(script, start, i, s, OtherError))
            && (o.AllTimedOut? <==> forall i :: 0 <= i < n ==> Fails(script, start, i, s, Timeout))
            && (o.AllFailed? <==>
                  FailedOver(script, start, n, s) && exists i :: 0 <= i < n && Fails(script, start, i, s, OsError))
  {
    hide StepsOf, OutcomeOf, Capped, Fails, Lands, FailedOver;
    var steps := StepsOf(script, start, Capped(addresses, cap), s);
    StepsMeaning(script, start, addresses, cap, s);
    OutcomeMeaning(steps);
    forall i: nat | i <= |steps|
      ensures FailedOver(script, start, i, s) <==> forall j :: 0 <= j < i ==> steps[j].Retry?
    {
      RetriesAreFailedOver(script, start, addresses, cap, s, i);
    }
  }

  /** A run ends in exactly one way, and the sockets say which. */
  lemma EndMeaning(script: nat -> Attempt, start: nat, addresses: seq<Endpoint>, cap: nat, s: Settings)
    ensures forall end :: EndsAs(end, script, start, addresses, cap, s)
                          <==> end == EndOf(OutcomeOf(StepsOf(script, start, Capped(addresses, cap), s)), start,
                                            addresses, cap)
  {
    hide StepsOf, OutcomeOf, Fails, Lands, FailedOver;
    var o := OutcomeOf(StepsOf(script, start, Capped(addresses, cap), s));
    OutcomeFacts(script, start, addresses, cap, s);
    forall end
      ensures EndsAs(end, script, start, addresses, cap, s) <==> end == EndOf(o, start, addresses, cap)
    {
      match end
      case Connected(socket, endpoint) =>
        if start <= socket < start + Tries(addresses, cap) && endpoint == addresses[socket - start] {
          assert o == Success(socket - start) <==>
                 && FailedOver(script, start, socket - start, s)
                 && Lands(script, start, socket - start, s, endpoint.ip, true);
        }
      case Blocked =>
        if o.PeerMismatch? {
          assert o == PeerMismatch(o.index);
        }
      case Escaped =>
        if o.Aborted? {
          assert o == Aborted(o.index);
        }
      case _ =>
    }
  }

  lemma RetriesAreFailedOver(script: nat -> Attempt, start: nat, addresses: seq<Endpoint>, cap: nat, s: Settings,
                             i: nat)
    requires i <= Tries(addresses, cap) && Tries(addresses, cap) == |Capped(addresses, cap)|
    ensures var steps := StepsOf(script, start, Capped(addresses, cap), s);
            FailedOver(script, start, i, s) <==> forall j :: 0 <= j < i ==> steps[j].Retry?
  {
    hide StepsOf, Capped, Fails, Lands;
    StepsMeaning(script, start, addresses, cap, s);
    var steps := StepsOf(script, start, Capped(addresses, cap), s);
    assert forall j :: 0 <= j < i ==> (steps[j].Retry? <==> steps[j] == Retry(true) || steps[j] == Retry(false));
  }

  predicate AllPermittedBy(p: Policy, addresses: seq<Endpoint>) {
    forall i :: 0 <= i < |addresses| ==> Permits(p, addresses[i].ip)
  }

  /** Every address is checked again, before any socket exists. */
  method AllPass(p: Policy, addresses: seq<Endpoint>) returns (ok: bool)
    ensures ok == AllPermittedBy(p, addresses)
  {
    hide Permits;
    for i := 0 to |addresses|
      invariant forall j :: 0 <= j < i ==> Permits(p, addresses[j].ip)
    {
      ok := CheckAddress(p, addresses[i].ip);
      if !ok {
        return false;
      }
    }
    return true;
  }

  /** Failover. No socket is asked for unless every address passes; then exactly the addresses up to the
      first that is not failed over from, and at most the cap, are tried in order, one socket each, and a
      socket dials its own address or nothing; the end is what the sockets met; on return exactly one more
      socket is open than before, and on any raise none is. */
  method Connect(p: Policy, addresses: seq<Endpoint>, settings: Settings, kernel: Kernel) returns (end: ConnectEnd)
    requires kernel.Valid() && Constructed(p)
    modifies kernel
    ensures kernel.Valid()
    ensures addresses == [] ==> end == NoAddresses && kernel.dials == old(kernel.dials)
    ensures addresses != [] && !AllPermittedBy(p, addresses) ==> end == Blocked && kernel.dials == old(kernel.dials)
    ensures addresses != [] && AllPermittedBy(p, addresses) ==>
              var start := old(kernel.asked);
              var steps := StepsOf(kernel.script, start, Capped(addresses, p.maxConnectionAttempts), settings);
              && end == EndOf(OutcomeOf(steps), start, addresses, p.maxConnectionAttempts)
              && EndsAs(end, kernel.script, start, addresses, p.maxConnectionAttempts, settings)
              && kernel.dials == old(kernel.dials) + Dials(kernel.script, start, addresses[..Tried(steps)], settings)
    ensures kernel.open == if end.Connected? then old(kernel.open) + {end.socket} else old(kernel.open)
    ensures end.Connected? ==>
              && end.socket !in old(kernel.open)
              && Permits(p, end.endpoint.ip) && kernel.script(end.socket).peer == end.endpoint.ip
  {
    hide Permits, Constructed, Dials, OutcomeOf, Tried, StepsOf, EndOf, EndsAs;
    if addresses == [] {
      return NoAddresses;
    }
    var passed := AllPass(p, addresses);
    if !passed {
      return Blocked;
    }
    EndMeaning(kernel.script, kernel.asked, addresses, p.maxConnectionAttempts, settings);
    end := TryEach(addresses, p.maxConnectionAttempts, settings, kernel);
    if end.Connected? {
      ConnectedToOne(kernel.script, old(kernel.asked), addresses, p.maxConnectionAttempts, settings);
    }
  }

  /** The failover loop, over addresses already checked. */
  method TryEach(addresses: seq<Endpoint>, cap: nat, settings: Settings, kernel: Kernel) returns (end: ConnectEnd)
    requires kernel.Valid()
    modifies kernel
    ensures kernel.Valid()
    ensures var start := old(kernel.asked);
            var steps := StepsOf(kernel.script, start, Capped(addresses, cap), settings);
            && end == EndOf(OutcomeOf(steps), start, addresses, cap)
            && kernel.dials == old(kernel.dials) + Dials(kernel.script, start, addresses[..Tried(steps)], settings)
    ensures kernel.open == if end.Connected? then old(kernel.open) + {end.socket} else old(kernel.open)
  {
    hide OpenStep, StepsOf, Dials, DialOf, OutcomeOf, Tried;
    var attempted := Capped(addresses, cap);
    ghost var start := kernel.asked;
    ghost var steps := StepsOf(kernel.script, start, attempted, settings);
    var onlyTimeouts := true;
    for i := 0 to |attempted|
      invariant kernel.Valid() && kernel.asked == start + i && kernel.open == old(kernel.open)
      invariant kernel.dials == old(kernel.dials) + Dials(kernel.script, start, addresses[..i], settings)
      invariant forall j :: 0 <= j < i ==> steps[j].Retry?
      invariant onlyTimeouts <==> forall j :: 0 <= j < i ==> steps[j] == Retry(true)
    {
      var step, socket := kernel.OpenOne(attempted[i], settings);
      StepAt(kernel.script, start, attempted, settings, i);
      DialsStep(kernel.script, start, addresses, i, settings);
      if !step.Retry? {
        StopsAt(steps, i);
        return if step.Opened? then Connected(socket, attempted[i]) else if step.Mismatch? then Blocked else Escaped;
      }
      onlyTimeouts := onlyTimeouts && step.timeout;
    }
    NeverStops(steps);
    return if onlyTimeouts then TimedOut(|addresses| - |attempted|) else Unreachable(|addresses| - |attempted|);
  }

  /** A connected end is one of the addresses, on a socket asked for in this run, with its peer confirmed. */
  lemma ConnectedToOne(script: nat -> Attempt, start: nat, addresses: seq<Endpoint>, cap: nat, s: Settings)
    requires EndOf(OutcomeOf(StepsOf(script, start, Capped(addresses, cap), s)), start, addresses, cap).Connected?
    ensures var end := EndOf(OutcomeOf(StepsOf(script, start, Capped(addresses, cap), s)), start, addresses, cap);
            && start <= end.socket < start + |Capped(addresses, cap)|
            && end.endpoint == addresses[end.socket - start]
            && script(end.socket).peer == end.endpoint.ip
  {
    hide StepsOf, OutcomeOf;
    var steps := StepsOf(script, start, Capped(addresses, cap), s);
    SuccessIsOpened(steps);
    StepAt(script, start, Capped(addresses, cap), s, OutcomeOf(steps).index);
  }

  lemma SuccessIsOpened(steps: seq<Step>)
    requires OutcomeOf(steps).Success?
    ensures OutcomeOf(steps).index < |steps| && steps[OutcomeOf(steps).index].Opened?
  {
  }

  lemma StepAt(script: nat -> Attempt, start: nat, attempted: seq<Endpoint>, s: Settings, i: nat)
    requires i < |attempted|
    ensures StepsOf(script, start, attempted, s)[i] == OpenStep(script(start + i), attempted[i].ip, s)
  {
    hide OpenStep;
  }

  lemma DialsStep(script: nat -> Attempt, start: nat, addresses: seq<Endpoint>, i: nat, s: Settings)
    requires i < |addresses|
    ensures Dials(script, start, addresses[..i + 1], s)
         == Dials(script, start, addresses[..i], s) + [DialOf(script(start + i), Whole(addresses[i].sockaddr), s)]
  {
  }

  /** A run stops at the first step that is not failed over from, and that step is its outcome. */
  lemma StopsAt(steps: seq<Step>, i: nat)
    requires i < |steps| && !steps[i].Retry? && forall j :: 0 <= j < i ==> steps[j].Retry?
    ensures Tried(steps) == i + 1
    ensures OutcomeOf(steps) ==
            if steps[i].Opened? then Success(i) else if steps[i].Mismatch? then PeerMismatch(i) else Aborted(i)
  {
    assert StopAt(steps) == i;
  }

  lemma NeverStops(steps: seq<Step>)
    requires forall j :: 0 <= j < |steps| ==> steps[j].Retry?
    ensures Tried(steps) == |steps|
    ensures OutcomeOf(steps) ==
            if forall j :: 0 <= j < |steps| ==> steps[j] == Retry(true) then AllTimedOut else AllFailed
  {
    assert StopAt(steps) == |steps|;
  }

  // ---------- what is checked and what is dialled ----------

  /** Everything in a log leads to an address the policy permits. */
  ghost predicate OnlyPermitted(p: Policy, log: seq<Option<Target>>) {
    forall i :: 0 <= i < |log| && log[i].Some? ==> Aim(log[i].value).Some? && Permits(p, Aim(log[i].value).value)
  }

  /** What one blocking run of failover dials. */
  function ConnectLog(script: nat -> Attempt, start: nat, addresses: seq<Endpoint>, cap: nat, s: Settings)
    : (log: seq<Option<Target>>)
  {
    Dials(script, start, addresses[..Tried(StepsOf(script, start, Capped(addresses, cap), s))], s)
  }

  predicate DialPermitted(p: Policy, e: Endpoint) {
    e.sockaddr.host.Some? && Permits(p, e.sockaddr.host.value)
  }

  /** Every socket is made and then refused by whoever is dialled. */
  function AllRefusing(n: nat): (at: Attempt) { Attempt(None, None, None, Some(OsError), None, V4(0)) }

  lemma RefusedByAll(start: nat, addresses: seq<Endpoint>, cap: nat, s: Settings, i: nat)
    requires i < |Capped(addresses, cap)|
    ensures var log := ConnectLog(AllRefusing, start, addresses, cap, s);
            i < |log| && log[i] == Some(Whole(addresses[i].sockaddr))
  {
    hide Tried;
    NeverStops(StepsOf(AllRefusing, start, Capped(addresses, cap), s));
  }

  /** `connect` checks `ip` and dials `sockaddr`. Exactly when that is safe for every network: nothing but
      permitted addresses is ever dialled if and only if every socket address within the cap is permitted
      itself. The addresses checked do not come into it. */
  lemma DialsArePermitted(p: Policy, addresses: seq<Endpoint>, cap: nat, s: Settings)
    ensures (forall script, start :: OnlyPermitted(p, ConnectLog(script, start, addresses, cap, s)))
            <==> forall e :: e in Capped(addresses, cap) ==> DialPermitted(p, e)
  {
    hide Permits, ConnectLog, Capped;
    if forall e :: e in Capped(addresses, cap) ==> DialPermitted(p, e) {
      forall script, start
        ensures OnlyPermitted(p, ConnectLog(script, start, addresses, cap, s))
      {
        LogIsPermitted(p, script, start, addresses, cap, s);
      }
    } else {
      var e :| e in Capped(addresses, cap) && !DialPermitted(p, e);
      var i :| 0 <= i < |Capped(addresses, cap)| && Capped(addresses, cap)[i] == e;
      RefusedByAll(0, addresses, cap, s, i);
      CappedAt(addresses, cap, i);
      assert !OnlyPermitted(p, ConnectLog(AllRefusing, 0, addresses, cap, s));
    }
  }

  lemma CappedAt(addresses: seq<Endpoint>, cap: nat, i: nat)
    requires i < |Capped(addresses, cap)|
    ensures i < |addresses| && Capped(addresses, cap)[i] == addresses[i]
  {
  }

  lemma LogIsPermitted(p: Policy, script: nat -> Attempt, start: nat, addresses: seq<Endpoint>, cap: nat, s: Settings)
    requires forall e :: e in Capped(addresses, cap) ==> DialPermitted(p, e)
    ensures OnlyPermitted(p, ConnectLog(script, start, addresses, cap, s))
  {
    hide Permits, Tried;
    var log := ConnectLog(script, start, addresses, cap, s);
    forall i | 0 <= i < |log| && log[i].Some?
      ensures Aim(log[i].value).Some? && Permits(p, Aim(log[i].value).value)
    {
      assert Capped(addresses, cap)[i] in Capped(addresses, cap);
    }
  }

  /** The list by hand whose every `ip` passes the check and whose one dial goes to a refused address, for any
      address the policy permits and any it refuses. */
  lemma CheckedOneDialledOther(p: Policy, good: Address, bad: Address, s: Settings) returns (addresses: seq<Endpoint>)
    requires Permits(p, good) && !Permits(p, bad) && p.maxConnectionAttempts >= 1
    ensures |addresses| == 1 && addresses[0].ip == good && AllPermittedBy(p, addresses)
    ensures var log := ConnectLog(AllRefusing, 0, addresses, p.maxConnectionAttempts, s);
            |log| == 1 && log[0].Some? && Aim(log[0].value) == Some(bad) && !OnlyPermitted(p, log)
  {
    hide Permits;
    addresses := [Endpoint(2, SockAddr("", Some(bad), 80, []), good, "")];
    RefusedByAll(0, addresses, p.maxConnectionAttempts, s, 0);
  }

  /** So it is under the shipped table: 8.8.8.8 is checked, and 127.0.0.1 is dialled. */
  lemma LoopbackIsDialled(p: Policy, s: Settings) returns (addresses: seq<Endpoint>)
    requires p.denied == Registry.TABLE && p.allowed == [] && p.maxConnectionAttempts >= 1
    ensures |addresses| == 1 && addresses[0].ip == Verdicts.PUBLIC && AllPermittedBy(p, addresses)
    ensures var log := ConnectLog(AllRefusing, 0, addresses, p.maxConnectionAttempts, s);
            |log| == 1 && log[0].Some? && Aim(log[0].value) == Some(Verdicts.LOOPBACK) && !OnlyPermitted(p, log)
  {
    hide Permits, ConnectLog;
    ShippedVerdicts(p);
    addresses := CheckedOneDialledOther(p, Verdicts.PUBLIC, Verdicts.LOOPBACK, s);
  }
}

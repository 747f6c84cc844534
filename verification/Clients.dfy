/** The two HTTP backends: the same pin reached by blocking sockets and by anyio. */
module Clients {
  import opened Wire
  import opened Networks
  import opened Hosts
  import opened Policies
  import opened Resolving
  import opened Connecting

  /** What a caller of `connect_tcp` sees. */
  datatype ClientEnd =
    | Stream(socket: nat, endpoint: Endpoint)
    | ConnectTimeout
    | ConnectError
    | RefusedUrl
    | RefusedAddress
    | OtherRaised

  /** An origin as a backend holds it, and how its sockets are to be set up. */
  datatype Origin = Origin(host: string, port: int, settings: Settings)

  predicate OriginAllowed(p: Policy, o: Origin, v6: string -> Option<nat>) {
    o.port in p.ports && SeamAllows(o.host, p.hosts, v6)
  }

  /** An origin passes exactly when its port is allowed and its host is: any host when none is listed, a literal
      only by being listed, and a name by its labels. */
  lemma OriginMeaning(p: Policy, o: Origin, v6: string -> Option<nat>)
    ensures OriginAllowed(p, o, v6) <==>
              && o.port in p.ports
              && (p.hosts == {}
                  || exists pattern :: pattern in p.hosts
                       && LabelsAllow(Split(StripDots(o.host)), pattern, IpAddress(o.host, v6).Some?))
  {
    hide LabelsAllow, HostIsAllowed, IpAddress, Split, StripDots;
    AllowlistMeaning(o.host, p.hosts, IpAddress(o.host, v6).Some?);
  }

  function AsClientEnd(end: ConnectEnd): (r: ClientEnd)
    requires !end.NoAddresses?
  {
    match end
    case Connected(socket, endpoint) => Stream(socket, endpoint)
    case Blocked => RefusedAddress
    case TimedOut(_) => ConnectTimeout
    case Unreachable(_) => ConnectError
    case Escaped => OtherRaised
  }

  function AsFault(f: Fault): (r: ClientEnd) {
    match f
    case Timeout => ConnectTimeout
    case OsError => ConnectError
    case OtherError => OtherRaised
  }

  // ---------- the blocking backend ----------

  /** The blocking backend always adds TCP_NODELAY, so its sockets always have an option to set. */
  function SyncSettings(s: Settings): (sync: Settings) { Settings(true, s.source) }

  function SyncSteps(p: Policy, kept: seq<Endpoint>, script: nat -> Attempt, start: nat, s: Settings)
    : (steps: seq<Step>)
    ensures |steps| == |Capped(kept, p.maxConnectionAttempts)|
  {
    StepsOf(script, start, Capped(kept, p.maxConnectionAttempts), SyncSettings(s))
  }

  /** How many of the addresses kept a blocking connection tries. */
  function SyncTried(p: Policy, kept: seq<Endpoint>, script: nat -> Attempt, start: nat, s: Settings): (n: nat)
    ensures n <= |kept| && n <= p.maxConnectionAttempts
  {
    Tried(SyncSteps(p, kept, script, start, s))
  }

  /** The outcome class of a blocking connection, given what the resolver answers. */
  function SyncEnd(p: Policy, o: Origin, answer: LookupAnswer, script: nat -> Attempt, start: nat): (r: ClientEnd)
  {
    match ResolveOn(p, o.host, answer)
    case Refused => RefusedAddress
    case Unresolvable => ConnectError
    case NotAnAddress => OtherRaised
    case LookupRaised(fault) => AsFault(fault)
    case Resolved(kept) =>
      var steps := SyncSteps(p, kept, script, start, o.settings);
      AsClientEnd(EndOf(OutcomeOf(steps), start, kept, p.maxConnectionAttempts))
  }

  lemma ResolvedArePermitted(p: Policy, hostname: string, answer: LookupAnswer)
    requires ResolveOn(p, hostname, answer).Resolved?
    ensures var kept := ResolveOn(p, hostname, answer).addresses; kept != [] && AllPermittedBy(p, kept)
  {
    hide Permits;
    var kept := ResolveOn(p, hostname, answer).addresses;
    assert forall i :: 0 <= i < |kept| ==> kept[i] in kept;
  }

  /** The addresses one answer allows; nothing else is ever dialled. */
  function Pinned(p: Policy, o: Origin, answer: LookupAnswer): (kept: seq<Endpoint>) {
    match ResolveOn(p, o.host, answer) case Resolved(kept) => kept case _ => []
  }

  /** A target that is, address and port, one of the endpoints kept, and permitted. */
  ghost predicate LeadsTo(p: Policy, kept: seq<Endpoint>, t: Target) {
    exists e :: e in kept && Aim(t) == Some(e.ip) && PortOf(t) == e.sockaddr.port && Permits(p, e.ip)
  }

  ghost predicate OnlyPinned(p: Policy, kept: seq<Endpoint>, log: seq<Option<Target>>) {
    forall i :: 0 <= i < |log| && log[i].Some? ==> LeadsTo(p, kept, log[i].value)
  }

  lemma NothingDialled(p: Policy)
    ensures OnlyPermitted(p, [])
  {
  }

  lemma PinnedIsPermitted(p: Policy, kept: seq<Endpoint>, log: seq<Option<Target>>)
    requires OnlyPinned(p, kept, log)
    ensures OnlyPermitted(p, log)
  {
    hide Permits;
  }

  /** What one answer allows is permitted, and its socket address is the address that was checked. */
  lemma PinnedFit(p: Policy, o: Origin, answer: LookupAnswer)
    ensures forall e :: e in Pinned(p, o, answer) ==> Permits(p, e.ip) && e.sockaddr.host == Some(e.ip)
  {
    hide Permits, ResolveOn;
    if answer.Infos? {
      ResolveMeaning(p, o.host, answer.rows);
    } else {
      NothingPinned(p, o, answer);
    }
  }

  lemma NothingPinned(p: Policy, o: Origin, answer: LookupAnswer)
    requires !answer.Infos?
    ensures Pinned(p, o, answer) == []
  {
  }

  lemma SyncDialsPinned(p: Policy, o: Origin, answer: LookupAnswer, script: nat -> Attempt, start: nat, n: nat,
                        s: Settings)
    requires n <= |Pinned(p, o, answer)|
    ensures OnlyPinned(p, Pinned(p, o, answer), Dials(script, start, Pinned(p, o, answer)[..n], s))
  {
    hide Permits, Pinned;
    PinnedFit(p, o, answer);
    var kept := Pinned(p, o, answer);
    var log := Dials(script, start, kept[..n], s);
    forall i | 0 <= i < |log| && log[i].Some?
      ensures LeadsTo(p, kept, log[i].value)
    {
      assert kept[i] in kept;
    }
  }

  /** What a blocking connection adds to the log. */
  function SyncLog(p: Policy, o: Origin, answer: LookupAnswer, script: nat -> Attempt, start: nat)
    : (log: seq<Option<Target>>)
    ensures |log| == SyncTried(p, Pinned(p, o, answer), script, start, o.settings)
  {
    var kept := Pinned(p, o, answer);
    Dials(script, start, kept[..SyncTried(p, kept, script, start, o.settings)], SyncSettings(o.settings))
  }

  /** The pin over a whole run. At most one lookup is made, whatever the resolver would answer next; every
      address dialled is one that one answer allows, permitted, and they are dialled in its order, each on a
      socket of its own, up to the first attempt not failed over from; and a stream returned is connected to
      one of them, with a confirmed peer, and is the only socket left open. */
  method ConnectTcp(p: Policy, o: Origin, v6: string -> Option<nat>, resolver: Resolver, kernel: Kernel)
    returns (end: ClientEnd)
    requires Constructed(p) && kernel.Valid()
    modifies resolver, kernel
    ensures kernel.Valid()
    ensures !OriginAllowed(p, o, v6) ==>
              end == RefusedUrl && resolver.asked == old(resolver.asked) && kernel.dials == old(kernel.dials)
    ensures OriginAllowed(p, o, v6) ==> resolver.asked == old(resolver.asked) + 1
    ensures var answer := resolver.script(old(resolver.asked));
            var start := old(kernel.asked);
            var kept := Pinned(p, o, answer);
            var log := SyncLog(p, o, answer, kernel.script, start);
            OriginAllowed(p, o, v6) ==>
              && end == SyncEnd(p, o, answer, kernel.script, start)
              && (if kept == [] then LookupEndsAs(end, answer, true)
                  else
                    ConnectsAs(end, kernel.script, start, kept, p.maxConnectionAttempts, SyncSettings(o.settings)))
              && kernel.dials == old(kernel.dials) + log
              && OnlyPinned(p, kept, log)
              && (end.Stream? ==>
                    && end.endpoint in kept
                    && Permits(p, end.endpoint.ip)
                    && kernel.script(end.socket).peer == end.endpoint.ip)
    ensures kernel.asked - old(kernel.asked) <= p.maxConnectionAttempts
    ensures old(kernel.dials) <= kernel.dials && OnlyPermitted(p, kernel.dials[old(kernel.asked)..])
    ensures kernel.open == if end.Stream? then old(kernel.open) + {end.socket} else old(kernel.open)
  {
    hide Permits, Constructed, SeamAllows, OutcomeOf, StepsOf, Dials, Tried, OnlyPinned, OnlyPermitted, ResolveOn;
    hide ConnectsAs, LookupEndsAs, EndsAs;
    if !OriginAllowed(p, o, v6) {
      NothingDialled(p);
      assert kernel.dials[kernel.asked..] == [];
      return RefusedUrl;
    }
    var resolved := Resolve(p, o.host, resolver);
    ghost var answer := resolver.script(old(resolver.asked));
    ghost var kept := Pinned(p, o, answer);
    ghost var n := SyncTried(p, kept, kernel.script, kernel.asked, o.settings);
    SyncEndMeaning(p, o, answer, kernel.script, kernel.asked);
    SyncDialsPinned(p, o, answer, kernel.script, kernel.asked, n, SyncSettings(o.settings));
    PinnedIsPermitted(p, kept, Dials(kernel.script, kernel.asked, kept[..n], SyncSettings(o.settings)));
    match resolved {
      case Refused => end := RefusedAddress;
      case Unresolvable => end := ConnectError;
      case NotAnAddress => end := OtherRaised;
      case LookupRaised(fault) => end := AsFault(fault);
      case Resolved(addresses) =>
        ResolvedArePermitted(p, o.host, answer);
        var connected := Connect(p, addresses, SyncSettings(o.settings), kernel);
        end := AsClientEnd(connected);
    }
  }

  /** How the connection part of a blocking call ends, as the caller sees it. */
  ghost predicate ConnectsAs(end: ClientEnd, script: nat -> Attempt, start: nat, kept: seq<Endpoint>, cap: nat,
                             s: Settings)
  {
    match end
    case Stream(socket, endpoint) => EndsAs(Connected(socket, endpoint), script, start, kept, cap, s)
    case ConnectTimeout => exists skipped :: EndsAs(TimedOut(skipped), script, start, kept, cap, s)
    case ConnectError => exists skipped :: EndsAs(Unreachable(skipped), script, start, kept, cap, s)
    case RefusedAddress => EndsAs(Blocked, script, start, kept, cap, s)
    case OtherRaised => EndsAs(Escaped, script, start, kept, cap, s)
    case RefusedUrl => false
  }

  /** How a call ends before any connection, by what the resolver answered: a resolver's own timeout or OSError
      is mapped by the blocking backend alone. */
  predicate LookupEndsAs(end: ClientEnd, answer: LookupAnswer, mapped: bool) {
    match answer
    case GaiError => end.ConnectError?
    case Raises(fault) =>
      if mapped && fault.Timeout? then end.ConnectTimeout?
      else if mapped && fault.OsError? then end.ConnectError?
      else end.OtherRaised?
    case Infos(rows) =>
      if !Readable(rows) then end.OtherRaised? else if rows == [] then end.ConnectError? else end.RefusedAddress?
  }

  /** How a blocking call ends, by the answer and, when that allows anything, by the sockets. */
  lemma SyncEndMeaning(p: Policy, o: Origin, answer: LookupAnswer, script: nat -> Attempt, start: nat)
    ensures forall end :: SyncEnd(p, o, answer, script, start) == end <==>
              var kept := Pinned(p, o, answer);
              if kept == [] then LookupEndsAs(end, answer, true)
              else ConnectsAs(end, script, start, kept, p.maxConnectionAttempts, SyncSettings(o.settings))
  {
    hide Permits, EndsAs, EndOf, StepsOf, ResolveOn;
    var kept, s := Pinned(p, o, answer), SyncSettings(o.settings);
    ResolveFailures(p, o.host, answer);
    PinnedOrNot(p, o, answer);
    EndMeaning(script, start, kept, p.maxConnectionAttempts, s);
    var end := EndOf(OutcomeOf(StepsOf(script, start, Capped(kept, p.maxConnectionAttempts), s)), start, kept,
                     p.maxConnectionAttempts);
    assert EndsAs(end, script, start, kept, p.maxConnectionAttempts, s);
    assert !EndsAs(NoAddresses, script, start, kept, p.maxConnectionAttempts, s) by {
      NeverNoAddresses(script, start, kept, p.maxConnectionAttempts, s);
    }
  }

  lemma NeverNoAddresses(script: nat -> Attempt, start: nat, addresses: seq<Endpoint>, cap: nat, s: Settings)
    ensures !EndsAs(NoAddresses, script, start, addresses, cap, s)
  {
  }

  /** Something is pinned exactly when the lookup resolves. */
  lemma PinnedOrNot(p: Policy, o: Origin, answer: LookupAnswer)
    ensures Pinned(p, o, answer) != [] <==> ResolveOn(p, o.host, answer).Resolved?
    ensures Pinned(p, o, answer) != [] ==> ResolveOn(p, o.host, answer) == Resolved(Pinned(p, o, answer))
  {
    hide Permits, PermittedOf, AnswersOf;
  }

  // ---------- the anyio backend ----------

  /** The steps of one attempt on anyio: it owns socket creation, so options come after the connection and
      a failing option is not failed over from; a stream without a remote address is not checked. */
  function AnyioStep(at: Attempt, ip: Address, s: Settings): (step: Step) {
    if at.create.Some? then AfterFault(at.create.value)
    else if s.source && at.bind.Some? then AfterFault(at.bind.value)
    else if at.connect.Some? then AfterFault(at.connect.value)
    else if s.options && at.option.Some? then Abort
    else if at.name.None? && at.peer != ip then Mismatch
    else Opened
  }

  function AnyioSteps(p: Policy, kept: seq<Endpoint>, script: nat -> Attempt, start: nat, s: Settings)
    : (steps: seq<Step>)
    ensures |steps| == |Capped(kept, p.maxConnectionAttempts)|
  {
    var attempted := Capped(kept, p.maxConnectionAttempts);
    seq(|attempted|, i requires 0 <= i < |attempted| => AnyioStep(script(start + i), attempted[i].ip, s))
  }

  function AnyioEnd(p: Policy, o: Origin, answer: LookupAnswer, script: nat -> Attempt, start: nat): (r: ClientEnd)
  {
    match ResolveOn(p, o.host, answer)
    case Refused => RefusedAddress
    case Unresolvable => ConnectError
    case NotAnAddress => OtherRaised
    case LookupRaised(_) => OtherRaised
    case Resolved(kept) =>
      var steps := AnyioSteps(p, kept, script, start, o.settings);
      AsClientEnd(EndOf(OutcomeOf(steps), start, kept, p.maxConnectionAttempts))
  }

  /** The calls one anyio connection makes, in order, and how each fails if it does. */
  function AnyioCalls(at: Attempt, s: Settings): (calls: seq<Option<Fault>>) {
    [at.create] + (if s.source then [at.bind] else []) + [at.connect]
  }

  /** The `i`-th anyio attempt of a run fails first in this way. */
  predicate AnyioFails(script: nat -> Attempt, start: nat, i: nat, s: Settings, f: Fault) {
    FailsFirst(AnyioCalls(script(start + i), s), f)
  }

  /** The `i`-th connection is up, and a failing option is, or is not, in the way. */
  predicate AnyioUp(script: nat -> Attempt, start: nat, i: nat, s: Settings, spoiled: bool) {
    var at := script(start + i);
    NoneFails(AnyioCalls(at, s)) && spoiled == (s.options && at.option.Some?)
  }

  /** The `i`-th connection is up, and its peer, if the stream knows one, is, or is not, the one checked. */
  predicate AnyioLands(script: nat -> Attempt, start: nat, i: nat, s: Settings, ip: Address, there: bool) {
    AnyioUp(script, start, i, s, false) && there == (script(start + i).name.Some? || script(start + i).peer == ip)
  }

  predicate AnyioFailedOver(script: nat -> Attempt, start: nat, i: nat, s: Settings) {
    forall j :: 0 <= j < i ==> AnyioFails(script, start, j, s, Timeout) || AnyioFails(script, start, j, s, OsError)
  }

  /** How an anyio run over these addresses ends, by the sockets alone. */
  ghost predicate AnyioConnectsAs(end: ClientEnd, script: nat -> Attempt, start: nat, kept: seq<Endpoint>, cap: nat,
                                  s: Settings)
  {
    var n := Tries(kept, cap);
    match end
    case ConnectTimeout => forall i :: 0 <= i < n ==> AnyioFails(script, start, i, s, Timeout)
    case ConnectError =>
      AnyioFailedOver(script, start, n, s) && exists i :: 0 <= i < n && AnyioFails(script, start, i, s, OsError)
    case Stream(socket, endpoint) =>
      && start <= socket < start + n && endpoint == kept[socket - start]
      && AnyioFailedOver(script, start, socket - start, s)
      && AnyioLands(script, start, socket - start, s, endpoint.ip, true)
    case RefusedAddress =>
      exists i :: 0 <= i < n && AnyioFailedOver(script, start, i, s)
                  && AnyioLands(script, start, i, s, kept[i].ip, false)
    case OtherRaised =>
      exists i :: 0 <= i < n && AnyioFailedOver(script, start, i, s) && AnyioAborts(script, start, i, s)
    case RefusedUrl => false
  }

  /** What ends a run with an exception of its own: one that is no OSError, or an option on a connection that is up. */
  predicate AnyioAborts(script: nat -> Attempt, start: nat, i: nat, s: Settings) {
    AnyioFails(script, start, i, s, OtherError) || AnyioUp(script, start, i, s, true)
  }

  lemma AnyioStepMeaning(at: Attempt, ip: Address, s: Settings)
    ensures var step, calls := AnyioStep(at, ip, s), AnyioCalls(at, s);
            var spoiled, there := s.options && at.option.Some?, at.name.Some? || at.peer == ip;
            && (step == Retry(true) <==> FailsFirst(calls, Timeout))
            && (step == Retry(false) <==> FailsFirst(calls, OsError))
            && (step == Abort <==> FailsFirst(calls, OtherError) || (NoneFails(calls) && spoiled))
            && (step == Opened <==> NoneFails(calls) && !spoiled && there)
            && (step == Mismatch <==> NoneFails(calls) && !spoiled && !there)
  {
    hide FailsFirst, NoneFails;
    var calls := AnyioCalls(at, s);
    var connect: nat := if s.source then 2 else 1;
    assert |calls| == connect + 1 && calls[0] == at.create && calls[connect] == at.connect;
    assert s.source ==> calls[1] == at.bind;
    hide AnyioCalls;
    if at.create.Some? {
      FailsAt(calls, 0);
    } else if s.source && at.bind.Some? {
      FailsAt(calls, 1);
    } else if at.connect.Some? {
      FailsAt(calls, connect);
    } else {
      NothingFails(calls);
    }
  }

  lemma AnyioStepsMeaning(p: Policy, kept: seq<Endpoint>, script: nat -> Attempt, start: nat, s: Settings, i: nat)
    requires i < Tries(kept, p.maxConnectionAttempts)
    ensures |AnyioSteps(p, kept, script, start, s)| == Tries(kept, p.maxConnectionAttempts)
    ensures var step := AnyioSteps(p, kept, script, start, s)[i];
            && (step == Retry(true) <==> AnyioFails(script, start, i, s, Timeout))
            && (step == Retry(false) <==> AnyioFails(script, start, i, s, OsError))
            && (step == Abort <==> AnyioAborts(script, start, i, s))
            && (step == Opened <==> AnyioLands(script, start, i, s, kept[i].ip, true))
            && (step == Mismatch <==> AnyioLands(script, start, i, s, kept[i].ip, false))
  {
    hide AnyioStep, AnyioCalls, FailsFirst, NoneFails;
    AnyioStepAt(p, kept, script, start, s, i);
    AnyioStepMeaning(script(start + i), kept[i].ip, s);
  }

  lemma AnyioRetries(p: Policy, kept: seq<Endpoint>, script: nat -> Attempt, start: nat, s: Settings, i: nat)
    requires i <= Tries(kept, p.maxConnectionAttempts)
    ensures |AnyioSteps(p, kept, script, start, s)| == Tries(kept, p.maxConnectionAttempts)
    ensures AnyioFailedOver(script, start, i, s)
            <==> forall j :: 0 <= j < i ==> AnyioSteps(p, kept, script, start, s)[j].Retry?
  {
    hide AnyioSteps, AnyioFails;
    var steps := AnyioSteps(p, kept, script, start, s);
    assert |steps| == Tries(kept, p.maxConnectionAttempts);
    forall j | 0 <= j < i
      ensures steps[j].Retry? <==> AnyioFails(script, start, j, s, Timeout) || AnyioFails(script, start, j, s, OsError)
    {
      AnyioStepsMeaning(p, kept, script, start, s, j);
      assert steps[j].Retry? <==> steps[j] == Retry(true) || steps[j] == Retry(false);
    }
  }

  lemma AnyioOutcomeFacts(p: Policy, kept: seq<Endpoint>, script: nat -> Attempt, start: nat, s: Settings)
    ensures var o := OutcomeOf(AnyioSteps(p, kept, script, start, s));
            var n := Tries(kept, p.maxConnectionAttempts);
            && (forall i: nat :: o == Success(i) <==>
                  i < n && AnyioFailedOver(script, start, i, s) && AnyioLands(script, start, i, s, kept[i].ip, true))
            && (forall i: nat :: o == PeerMismatch(i) <==>
                  i < n && AnyioFailedOver(script, start, i, s) && AnyioLands(script, start, i, s, kept[i].ip, false))
            && (forall i: nat :: o == Aborted(i) <==>
                  i < n && AnyioFailedOver(script, start, i, s) && AnyioAborts(script, start, i, s))
            && (o.AllTimedOut? <==> forall i :: 0 <= i < n ==> AnyioFails(script, start, i, s, Timeout))
            && (o.AllFailed? <==>
                  AnyioFailedOver(script, start, n, s)
                  && exists i :: 0 <= i < n && AnyioFails(script, start, i, s, OsError))
  {
    hide AnyioSteps, OutcomeOf, AnyioFails, AnyioLands, AnyioFailedOver, AnyioAborts;
    var steps := AnyioSteps(p, kept, script, start, s);
    assert |steps| == Tries(kept, p.maxConnectionAttempts);
    OutcomeMeaning(steps);
    forall i: nat | i <= |steps|
      ensures AnyioFailedOver(script, start, i, s) <==> forall j :: 0 <= j < i ==> steps[j].Retry?
    {
      AnyioRetries(p, kept, script, start, s, i);
    }
    forall i: nat | i < |steps|
      ensures steps[i] == Retry(true) <==> AnyioFails(script, start, i, s, Timeout)
      ensures steps[i] == Retry(false) <==> AnyioFails(script, start, i, s, OsError)
      ensures steps[i] == Abort <==> AnyioAborts(script, start, i, s)
      ensures steps[i] == Opened <==> AnyioLands(script, start, i, s, kept[i].ip, true)
      ensures steps[i] == Mismatch <==> AnyioLands(script, start, i, s, kept[i].ip, false)
    {
      AnyioStepsMeaning(p, kept, script, start, s, i);
    }
  }

  /** An anyio run ends in exactly one way, and the sockets say which. */
  lemma AnyioRunMeaning(p: Policy, kept: seq<Endpoint>, script: nat -> Attempt, start: nat, s: Settings)
    ensures forall end :: AnyioConnectsAs(end, script, start, kept, p.maxConnectionAttempts, s) <==>
              end == AsClientEnd(EndOf(OutcomeOf(AnyioSteps(p, kept, script, start, s)), start, kept,
                                       p.maxConnectionAttempts))
  {
    hide AnyioSteps, AnyioFails, AnyioLands, AnyioFailedOver, AnyioAborts;
    var o := OutcomeOf(AnyioSteps(p, kept, script, start, s));
    AnyioOutcomeFacts(p, kept, script, start, s);
    var cap := p.maxConnectionAttempts;
    hide OutcomeOf;
    forall end
      ensures AnyioConnectsAs(end, script, start, kept, cap, s) <==> end == AsClientEnd(EndOf(o, start, kept, cap))
    {
      match end
      case Stream(socket, endpoint) =>
        if start <= socket < start + Tries(kept, cap) && endpoint == kept[socket - start] {
          assert o == Success(socket - start) <==>
                 && AnyioFailedOver(script, start, socket - start, s)
                 && AnyioLands(script, start, socket - start, s, endpoint.ip, true);
        }
      case RefusedAddress =>
        if o.PeerMismatch? {
          assert o == PeerMismatch(o.index);
        }
      case OtherRaised =>
        if o.Aborted? {
          assert o == Aborted(o.index);
        }
      case _ =>
    }
  }

  /** How an anyio call ends, by the answer and, when that allows anything, by the sockets. */
  lemma AnyioEndMeaning(p: Policy, o: Origin, answer: LookupAnswer, script: nat -> Attempt, start: nat)
    ensures forall end :: AnyioEnd(p, o, answer, script, start) == end <==>
              var kept := Pinned(p, o, answer);
              if kept == [] then LookupEndsAs(end, answer, false)
              else AnyioConnectsAs(end, script, start, kept, p.maxConnectionAttempts, o.settings)
  {
    hide Permits, AnyioConnectsAs, EndOf, AnyioSteps, ResolveOn;
    ResolveFailures(p, o.host, answer);
    PinnedOrNot(p, o, answer);
    AnyioRunMeaning(p, Pinned(p, o, answer), script, start, o.settings);
  }

  function AnyioTried(p: Policy, kept: seq<Endpoint>, script: nat -> Attempt, start: nat, s: Settings): (n: nat)
    ensures n <= |kept| && n <= p.maxConnectionAttempts
  {
    Tried(AnyioSteps(p, kept, script, start, s))
  }

  /** anyio is handed the validated address and its port; options cannot stop it from dialling. */
  function AnyioDial(at: Attempt, e: Endpoint, s: Settings): (d: Option<Target>) {
    DialOf(at, Bare(e.ip, e.sockaddr.port), Settings(false, s.source))
  }

  /** What a run of anyio attempts dials, socket by socket. */
  function AnyioDials(script: nat -> Attempt, start: nat, attempted: seq<Endpoint>, s: Settings)
    : (log: seq<Option<Target>>)
    ensures |log| == |attempted|
  {
    seq(|attempted|, i requires 0 <= i < |attempted| => AnyioDial(script(start + i), attempted[i], s))
  }

  method OpenStream(e: Endpoint, settings: Settings, kernel: Kernel) returns (step: Step, s: nat)
    requires kernel.Valid()
    modifies kernel
    ensures kernel.Valid() && kernel.asked == old(kernel.asked) + 1 && s == old(kernel.asked)
    ensures step == AnyioStep(kernel.script(s), e.ip, settings)
    ensures kernel.dials == old(kernel.dials) + [AnyioDial(kernel.script(s), e, settings)]
    ensures kernel.open == if step.Opened? then old(kernel.open) + {s} else old(kernel.open)
  {
    var fault;
    s, fault := kernel.Socket();
    if fault.Some? {
      return AfterFault(fault.value), s;
    }
    var at := kernel.script(s);
    if settings.source && at.bind.Some? {
      kernel.Close(s);
      return AfterFault(at.bind.value), s;
    }
    fault := kernel.Dial(s, Bare(e.ip, e.sockaddr.port));
    if fault.Some? {
      kernel.Close(s);
      return AfterFault(fault.value), s;
    }
    if settings.options && at.option.Some? {
      kernel.Close(s);
      return Abort, s;
    }
    if at.name.None? && at.peer != e.ip {
      kernel.Close(s);
      return Mismatch, s;
    }
    return Opened, s;
  }

  /** Asynchronous failover: the addresses up to the first that is not failed over from are dialled in
      order, each on a socket of its own, and nothing else is. */
  method FirstReachable(p: Policy, addresses: seq<Endpoint>, settings: Settings, kernel: Kernel)
    returns (end: ClientEnd)
    requires kernel.Valid() && addresses != []
    modifies kernel
    ensures kernel.Valid()
    ensures var start := old(kernel.asked);
            var steps := AnyioSteps(p, addresses, kernel.script, start, settings);
            && end == AsClientEnd(EndOf(OutcomeOf(steps), start, addresses, p.maxConnectionAttempts))
            && kernel.dials == old(kernel.dials) + AnyioDials(kernel.script, start, addresses[..Tried(steps)], settings)
    ensures kernel.open == if end.Stream? then old(kernel.open) + {end.socket} else old(kernel.open)
  {
    hide AnyioStep, AnyioSteps, AnyioDials, AnyioDial, OutcomeOf, Tried;
    var attempted := Capped(addresses, p.maxConnectionAttempts);
    ghost var start := kernel.asked;
    ghost var steps := AnyioSteps(p, addresses, kernel.script, start, settings);
    var onlyTimeouts := true;
    for i := 0 to |attempted|
      invariant kernel.Valid() && kernel.asked == start + i && kernel.open == old(kernel.open)
      invariant kernel.dials == old(kernel.dials) + AnyioDials(kernel.script, start, addresses[..i], settings)
      invariant forall j :: 0 <= j < i ==> steps[j].Retry?
      invariant onlyTimeouts <==> forall j :: 0 <= j < i ==> steps[j] == Retry(true)
    {
      var step, socket := OpenStream(attempted[i], settings, kernel);
      AnyioStepAt(p, addresses, kernel.script, start, settings, i);
      AnyioDialsStep(kernel.script, start, addresses, i, settings);
      if !step.Retry? {
        StopsAt(steps, i);
        return if step.Opened? then Stream(socket, attempted[i])
               else if step.Mismatch? then RefusedAddress
               else OtherRaised;
      }
      onlyTimeouts := onlyTimeouts && step.timeout;
    }
    NeverStops(steps);
    return if onlyTimeouts then ConnectTimeout else ConnectError;
  }

  lemma AnyioStepAt(p: Policy, kept: seq<Endpoint>, script: nat -> Attempt, start: nat, s: Settings, i: nat)
    requires i < |Capped(kept, p.maxConnectionAttempts)|
    ensures AnyioSteps(p, kept, script, start, s)[i] == AnyioStep(script(start + i), kept[i].ip, s)
  {
    hide AnyioStep;
  }

  lemma AnyioDialsStep(script: nat -> Attempt, start: nat, addresses: seq<Endpoint>, i: nat, s: Settings)
    requires i < |addresses|
    ensures AnyioDials(script, start, addresses[..i + 1], s)
         == AnyioDials(script, start, addresses[..i], s) + [AnyioDial(script(start + i), addresses[i], s)]
  {
  }

  lemma AnyioDialsPinned(p: Policy, o: Origin, answer: LookupAnswer, script: nat -> Attempt, start: nat, n: nat,
                         s: Settings)
    requires n <= |Pinned(p, o, answer)|
    ensures OnlyPinned(p, Pinned(p, o, answer), AnyioDials(script, start, Pinned(p, o, answer)[..n], s))
  {
    hide Permits, Pinned;
    PinnedFit(p, o, answer);
    var kept := Pinned(p, o, answer);
    var log := AnyioDials(script, start, kept[..n], s);
    forall i | 0 <= i < |log| && log[i].Some?
      ensures LeadsTo(p, kept, log[i].value)
    {
      assert kept[i] in kept;
    }
  }

  /** What an anyio connection adds to the log. */
  function AnyioLog(p: Policy, o: Origin, answer: LookupAnswer, script: nat -> Attempt, start: nat)
    : (log: seq<Option<Target>>)
    ensures |log| == AnyioTried(p, Pinned(p, o, answer), script, start, o.settings)
  {
    var kept := Pinned(p, o, answer);
    AnyioDials(script, start, kept[..AnyioTried(p, kept, script, start, o.settings)], o.settings)
  }

  /** The pin on the asynchronous side: one lookup, and every address dialled is one that it allows,
      permitted, in its order. */
  method AsyncConnectTcp(p: Policy, o: Origin, v6: string -> Option<nat>, resolver: Resolver, kernel: Kernel)
    returns (end: ClientEnd)
    requires Constructed(p) && kernel.Valid()
    modifies resolver, kernel
    ensures kernel.Valid()
    ensures !OriginAllowed(p, o, v6) ==>
              end == RefusedUrl && resolver.asked == old(resolver.asked) && kernel.dials == old(kernel.dials)
    ensures OriginAllowed(p, o, v6) ==> resolver.asked == old(resolver.asked) + 1
    ensures var answer := resolver.script(old(resolver.asked));
            var start := old(kernel.asked);
            var kept := Pinned(p, o, answer);
            var log := AnyioLog(p, o, answer, kernel.script, start);
            OriginAllowed(p, o, v6) ==>
              && end == AnyioEnd(p, o, answer, kernel.script, start)
              && (if kept == [] then LookupEndsAs(end, answer, false)
                  else AnyioConnectsAs(end, kernel.script, start, kept, p.maxConnectionAttempts, o.settings))
              && kernel.dials == old(kernel.dials) + log
              && OnlyPinned(p, kept, log)
    ensures kernel.open == if end.Stream? then old(kernel.open) + {end.socket} else old(kernel.open)
  {
    hide Permits, Constructed, SeamAllows, OutcomeOf, AnyioSteps, AnyioDials, Tried, OnlyPinned, ResolveOn, EndOf;
    hide AnyioConnectsAs, LookupEndsAs;
    if !OriginAllowed(p, o, v6) {
      return RefusedUrl;
    }
    var resolved := Resolve(p, o.host, resolver);
    ghost var answer := resolver.script(old(resolver.asked));
    ghost var kept := Pinned(p, o, answer);
    AnyioEndMeaning(p, o, answer, kernel.script, kernel.asked);
    AnyioDialsPinned(p, o, answer, kernel.script, kernel.asked,
                     AnyioTried(p, kept, kernel.script, kernel.asked, o.settings), o.settings);
    match resolved {
      case Refused => end := RefusedAddress;
      case Unresolvable => end := ConnectError;
      case NotAnAddress => end := OtherRaised;
      case LookupRaised(_) => end := OtherRaised;
      case Resolved(addresses) =>
        ResolvedArePermitted(p, o.host, answer);
        var passed := AllPass(p, addresses);
        if !passed {
          return RefusedAddress;
        }
        end := FirstReachable(p, addresses, o.settings, kernel);
    }
  }

  /** A stream the asynchronous backend returns is pinned too, and its peer is confirmed exactly when the
      stream knows its remote address. */
  lemma AsyncPin(p: Policy, o: Origin, answer: LookupAnswer, script: nat -> Attempt, start: nat)
    requires AnyioEnd(p, o, answer, script, start).Stream?
    ensures var r := AnyioEnd(p, o, answer, script, start);
            && r.endpoint in Pinned(p, o, answer) && Permits(p, r.endpoint.ip)
            && (script(r.socket).name.None? ==> script(r.socket).peer == r.endpoint.ip)
  {
    hide Permits, AnswersOf, PermittedOf, OutcomeOf, AnyioStep, AnyioSteps;
    ResolvedArePermitted(p, o.host, answer);
    var kept := Pinned(p, o, answer);
    var steps := AnyioSteps(p, kept, script, start, o.settings);
    SuccessIsOpened(steps);
    var i := OutcomeOf(steps).index;
    AnyioStepAt(p, kept, script, start, o.settings, i);
    AnyioOpened(script(start + i), kept[i].ip, o.settings);
  }

  lemma AnyioOpened(at: Attempt, ip: Address, s: Settings)
    ensures AnyioStep(at, ip, s).Opened? && at.name.None? ==> at.peer == ip
  {
  }

  // ---------- the two agree ----------

  /** Exactly when one attempt is the same step on both: option faults and nameless peers are where they part. */
  predicate Alike(at: Attempt, s: Settings) {
    var connecting := if s.source && at.bind.Some? then at.bind else at.connect;
    || at.create.Some?
    || (if at.option.Some? then
          if connecting.Some? then AfterFault(at.option.value) == AfterFault(connecting.value)
          else s.options && at.option.value.OtherError?
        else connecting.Some? || at.name.None?)
  }

  lemma AlikeIsExact(at: Attempt, ip: Address, s: Settings)
    ensures OpenStep(at, ip, SyncSettings(s)) == AnyioStep(at, ip, s) <==> Alike(at, s)
  {
  }

  /** Every attempt a blocking connection makes is the same step on both. */
  predicate MadeAlike(p: Policy, o: Origin, answer: LookupAnswer, script: nat -> Attempt, start: nat) {
    var n := SyncTried(p, Pinned(p, o, answer), script, start, o.settings);
    forall k :: start <= k < start + n ==> Alike(script(k), o.settings)
  }

  /** Two runs with the same steps up to where one of them stops are the same run. */
  lemma SameRun(s: seq<Step>, t: seq<Step>)
    requires |s| == |t|
    ensures Tried(s) == Tried(t) && s[..Tried(s)] == t[..Tried(t)] <==> forall i :: 0 <= i < Tried(s) ==> s[i] == t[i]
    ensures (forall i :: 0 <= i < Tried(s) ==> s[i] == t[i]) ==> OutcomeOf(s) == OutcomeOf(t)
  {
    var n := Tried(s);
    if forall i :: 0 <= i < n ==> s[i] == t[i] {
      if StopAt(s) < |s| {
        StopsAt(s, n - 1);
        StopsAt(t, n - 1);
      } else {
        assert s == t;
      }
    } else if Tried(s) == Tried(t) {
      var i :| 0 <= i < n && s[i] != t[i];
      assert s[..n][i] != t[..n][i];
    }
  }

  lemma StepAlike(p: Policy, kept: seq<Endpoint>, script: nat -> Attempt, start: nat, s: Settings, i: nat)
    requires i < |Capped(kept, p.maxConnectionAttempts)|
    ensures SyncSteps(p, kept, script, start, s)[i] == AnyioSteps(p, kept, script, start, s)[i]
            <==> Alike(script(start + i), s)
  {
    hide Alike, OpenStep, AnyioStep;
    AlikeIsExact(script(start + i), kept[i].ip, s);
  }

  lemma MadeAlikeSteps(p: Policy, o: Origin, answer: LookupAnswer, script: nat -> Attempt, start: nat)
    ensures var kept := Pinned(p, o, answer);
            var s := SyncSteps(p, kept, script, start, o.settings);
            var t := AnyioSteps(p, kept, script, start, o.settings);
            MadeAlike(p, o, answer, script, start) <==> forall i :: 0 <= i < Tried(s) ==> s[i] == t[i]
  {
    hide Alike, SyncSteps, AnyioSteps, Tried, Pinned, Capped;
    var kept := Pinned(p, o, answer);
    var s := SyncSteps(p, kept, script, start, o.settings);
    var t := AnyioSteps(p, kept, script, start, o.settings);
    forall i | 0 <= i < |s|
      ensures s[i] == t[i] <==> Alike(script(start + i), o.settings)
    {
      StepAlike(p, kept, script, start, o.settings, i);
    }
    forall k | start <= k < start + |s|
      ensures s[k - start] == t[k - start] <==> Alike(script(k), o.settings)
    {
      assert start + (k - start) == k;
    }
  }

  /** Both backends make the same run of attempts, step for step, exactly when every attempt made is alike;
      and then, for any answer but a raised timeout or OSError, they end the same way. */
  lemma ClientsAgree(p: Policy, o: Origin, answer: LookupAnswer, script: nat -> Attempt, start: nat)
    ensures var kept := Pinned(p, o, answer);
            var s := SyncSteps(p, kept, script, start, o.settings);
            var t := AnyioSteps(p, kept, script, start, o.settings);
            MadeAlike(p, o, answer, script, start) <==> Tried(s) == Tried(t) && s[..Tried(s)] == t[..Tried(t)]
    ensures MadeAlike(p, o, answer, script, start) && (answer.Raises? ==> answer.fault.OtherError?) ==>
              SyncEnd(p, o, answer, script, start) == AnyioEnd(p, o, answer, script, start)
  {
    hide MadeAlike, SyncSteps, AnyioSteps, OutcomeOf, Tried, PermittedOf, AnswersOf, EndOf;
    var kept := Pinned(p, o, answer);
    MadeAlikeSteps(p, o, answer, script, start);
    SameRun(SyncSteps(p, kept, script, start, o.settings), AnyioSteps(p, kept, script, start, o.settings));
  }

  /** Exactly when both dial on one attempt, or neither does. */
  predicate DialsAlike(at: Attempt, s: Settings) {
    at.create.Some? || at.option.None? || (s.source && at.bind.Some?)
  }

  /** Where an attempt went, if it went anywhere. */
  function Reached(d: Option<Target>): (to: Option<(Option<Address>, int)>) {
    match d case None => None case Some(t) => Some((Aim(t), PortOf(t)))
  }

  /** Over the first `n` attempts: where one dials the other dials the same place or not at all, and the two
      logs agree exactly when no option fault stops a connect call on one side alone. */
  lemma LogsAgreeSoFar(p: Policy, o: Origin, answer: LookupAnswer, script: nat -> Attempt, start: nat, n: nat)
    requires n <= |Pinned(p, o, answer)|
    ensures var kept := Pinned(p, o, answer)[..n];
            var s := Dials(script, start, kept, SyncSettings(o.settings));
            var t := AnyioDials(script, start, kept, o.settings);
            && (forall i :: 0 <= i < n && s[i].Some? ==> Reached(s[i]) == Reached(t[i]))
            && ((forall i :: 0 <= i < n ==> Reached(s[i]) == Reached(t[i]))
                <==> forall k :: start <= k < start + n ==> DialsAlike(script(k), o.settings))
  {
    hide Permits, Pinned;
    PinnedFit(p, o, answer);
    var kept := Pinned(p, o, answer);
    var s := Dials(script, start, kept[..n], SyncSettings(o.settings));
    var t := AnyioDials(script, start, kept[..n], o.settings);
    forall i | 0 <= i < n
      ensures s[i].Some? ==> Reached(s[i]) == Reached(t[i])
      ensures Reached(s[i]) == Reached(t[i]) <==> DialsAlike(script(start + i), o.settings)
    {
      assert kept[i] in kept;
    }
    forall k | start <= k < start + n
      ensures Reached(s[k - start]) == Reached(t[k - start]) <==> DialsAlike(script(k), o.settings)
    {
      assert start + (k - start) == k;
    }
  }

  /** What the two backends add to their logs over a whole connection: on an attempt both make they never dial
      different places, and the logs agree from end to end exactly when the two make as many attempts and no
      option fault stops a connect call on one side alone. */
  lemma LogsAgree(p: Policy, o: Origin, answer: LookupAnswer, script: nat -> Attempt, start: nat)
    ensures var s, t := SyncLog(p, o, answer, script, start), AnyioLog(p, o, answer, script, start);
            && (forall i :: 0 <= i < |s| && i < |t| && s[i].Some? ==> Reached(s[i]) == Reached(t[i]))
            && (|s| == |t| && (forall i :: 0 <= i < |s| ==> Reached(s[i]) == Reached(t[i]))
                <==> |s| == |t| && forall k :: start <= k < start + |s| ==> DialsAlike(script(k), o.settings))
  {
    hide Pinned, Dials, AnyioDials, SyncTried, AnyioTried, DialsAlike;
    var s, t := SyncLog(p, o, answer, script, start), AnyioLog(p, o, answer, script, start);
    var kept := Pinned(p, o, answer);
    var n := if |s| < |t| then |s| else |t|;
    LogsAgreeSoFar(p, o, answer, script, start, n);
    DialsPrefix(script, start, kept, n, |s|, SyncSettings(o.settings));
    AnyioDialsPrefix(script, start, kept, n, |t|, o.settings);
  }

  lemma DialsPrefix(script: nat -> Attempt, start: nat, kept: seq<Endpoint>, n: nat, m: nat, s: Settings)
    requires n <= m <= |kept|
    ensures Dials(script, start, kept[..n], s) == Dials(script, start, kept[..m], s)[..n]
  {
  }

  lemma AnyioDialsPrefix(script: nat -> Attempt, start: nat, kept: seq<Endpoint>, n: nat, m: nat, s: Settings)
    requires n <= m <= |kept|
    ensures AnyioDials(script, start, kept[..n], s) == AnyioDials(script, start, kept[..m], s)[..n]
  {
  }

  /** With every attempt made alike and none with an option that fails, both logs lead to the same places. */
  lemma AlikeRunsDialAlike(p: Policy, o: Origin, answer: LookupAnswer, script: nat -> Attempt, start: nat)
    requires MadeAlike(p, o, answer, script, start)
    requires forall k :: start <= k < start + |SyncLog(p, o, answer, script, start)| ==> script(k).option.None?
    ensures var s, t := SyncLog(p, o, answer, script, start), AnyioLog(p, o, answer, script, start);
            |s| == |t| && forall i :: 0 <= i < |s| ==> Reached(s[i]) == Reached(t[i])
  {
    hide MadeAlike, Pinned, SyncLog, AnyioLog, Reached, SyncSteps, AnyioSteps;
    ClientsAgree(p, o, answer, script, start);
    LogsAgree(p, o, answer, script, start);
  }

  /** An option that fails on a connection that would succeed is failed over from on one backend and aborts
      the other: with one address, one reports a connection error and the other raises the option's own. */
  lemma OptionFaultParts(p: Policy, o: Origin, answer: LookupAnswer, script: nat -> Attempt, start: nat)
    requires |Pinned(p, o, answer)| == 1 && p.maxConnectionAttempts >= 1 && o.settings.options
    requires script(start).option == Some(OsError)
    requires script(start).create.None? && script(start).bind.None? && script(start).connect.None?
    ensures SyncEnd(p, o, answer, script, start) == ConnectError
    ensures AnyioEnd(p, o, answer, script, start) == OtherRaised
  {
    hide ResolveOn, StopAt;
    var kept := Pinned(p, o, answer);
    var sync := SyncSteps(p, kept, script, start, o.settings);
    var anyio := AnyioSteps(p, kept, script, start, o.settings);
    OutcomeMeaning(sync);
    assert sync[0] == OpenStep(script(start + 0), kept[0].ip, SyncSettings(o.settings)) == Retry(false);
    assert anyio[0] == AnyioStep(script(start + 0), kept[0].ip, o.settings) == Abort;
    StopsAt(anyio, 0);
  }

  /** A resolver that raises a timeout or an OSError of its own parts them too: only one backend maps it. */
  lemma ResolverFaultParts(p: Policy, o: Origin, fault: Fault, script: nat -> Attempt, start: nat)
    ensures SyncEnd(p, o, Raises(fault), script, start) == AnyioEnd(p, o, Raises(fault), script, start)
            <==> fault.OtherError?
  {
  }
}

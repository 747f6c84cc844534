/** Chains of redirects: every hop a fresh origin, a fresh lookup and a fresh connection, under the redirect cap. */
module Redirects {
  import opened Wire
  import opened Networks
  import opened Policies
  import opened Resolving
  import opened Connecting
  import opened Clients

  datatype Response = Final | Redirect

  datatype ChainEnd = Fetched | TooManyRedirects(walked: nat) | Unfetched(why: ClientEnd)

  /** Everything a chain meets: where each hop goes, what the server says to it, and what the resolver and the
      sockets do, counted from where the chain begins. */
  datatype Chain = Chain(
    origins: nat -> Origin, server: nat -> Response, v6: string -> Option<nat>,
    answers: nat -> LookupAnswer, lookup: nat, sockets: nat -> Attempt, socket: nat)

  /** `_check_redirect_cap`: this response and those before it are the chain walked. */
  predicate PastTheCap(p: Policy, history: nat) {
    history + 1 > p.maxRedirects
  }

  // ---------- the chain, hop by hop ----------

  /** The answer the `i`-th hop's own lookup gets, when every hop before it made one. */
  function HopAnswer(ch: Chain, i: nat): (answer: LookupAnswer) { ch.answers(ch.lookup + i) }

  /** The first socket of the `i`-th hop: every hop before it took as many as it tried. */
  function HopStart(p: Policy, ch: Chain, i: nat): (start: nat)
  {
    if i == 0 then ch.socket
    else
      var before := HopStart(p, ch, i - 1);
      var o := ch.origins(i - 1);
      before + SyncTried(p, Pinned(p, o, HopAnswer(ch, i - 1)), ch.sockets, before, o.settings)
  }

  /** How the `i`-th hop's connection ends. */
  ghost predicate HopEndsAs(p: Policy, ch: Chain, i: nat, end: ClientEnd) {
    var o, kept := ch.origins(i), Pinned(p, ch.origins(i), HopAnswer(ch, i));
    if !OriginAllowed(p, o, ch.v6) then end.RefusedUrl?
    else if kept == [] then LookupEndsAs(end, HopAnswer(ch, i), true)
    else ConnectsAs(end, ch.sockets, HopStart(p, ch, i), kept, p.maxConnectionAttempts, SyncSettings(o.settings))
  }

  /** The `i`-th hop gets a connection. */
  ghost predicate HopConnects(p: Policy, ch: Chain, i: nat) {
    exists end: ClientEnd :: end.Stream? && HopEndsAs(p, ch, i, end)
  }

  /** The chain gets as far as the `i`-th hop: every hop before it connects and is redirected. */
  ghost predicate Arrives(p: Policy, ch: Chain, i: nat) {
    forall j :: 0 <= j < i ==> HopConnects(p, ch, j) && ch.server(j).Redirect?
  }

  /** How a chain ends, and after how many requests: with the first final response within the cap, at the cap
      when there is none, or at the first hop that gets no connection, for that hop's reason. */
  ghost predicate ChainEndsAs(p: Policy, ch: Chain, end: ChainEnd, sent: nat) {
    match end
    case Fetched =>
      1 <= sent <= p.maxRedirects + 1 && Arrives(p, ch, sent - 1) && HopConnects(p, ch, sent - 1)
      && ch.server(sent - 1).Final?
    case TooManyRedirects(walked) => walked == sent == p.maxRedirects + 1 && Arrives(p, ch, sent)
    case Unfetched(why) => sent <= p.maxRedirects && Arrives(p, ch, sent) && !why.Stream? && HopEndsAs(p, ch, sent, why)
  }

  /** One hop's connection ends in exactly one way. */
  lemma HopEndUnique(p: Policy, ch: Chain, i: nat, x: ClientEnd, y: ClientEnd)
    requires HopEndsAs(p, ch, i, x) && HopEndsAs(p, ch, i, y)
    ensures x == y
  {
    hide ConnectsAs, LookupEndsAs, OriginAllowed, Pinned, SyncEnd;
    SyncEndMeaning(p, ch.origins(i), HopAnswer(ch, i), ch.sockets, HopStart(p, ch, i));
  }

  /** The hop at which a chain stops. */
  function LastHop(end: ChainEnd, sent: nat): (i: int) { if end.Unfetched? then sent else sent - 1 }

  lemma StopsThere(p: Policy, ch: Chain, end: ChainEnd, sent: nat)
    requires ChainEndsAs(p, ch, end, sent)
    ensures 0 <= LastHop(end, sent) <= p.maxRedirects && Arrives(p, ch, LastHop(end, sent))
    ensures HopConnects(p, ch, LastHop(end, sent)) <==> !end.Unfetched?
    ensures end.Fetched? ==> ch.server(LastHop(end, sent)).Final?
    ensures end.TooManyRedirects? ==> ch.server(LastHop(end, sent)).Redirect? && LastHop(end, sent) == p.maxRedirects
  {
    hide HopEndsAs;
    if end.Unfetched? && HopConnects(p, ch, sent) {
      var other: ClientEnd :| other.Stream? && HopEndsAs(p, ch, sent, other);
      HopEndUnique(p, ch, sent, other, end.why);
      assert false;
    }
  }

  /** A chain ends in exactly one way. */
  lemma ChainEndUnique(p: Policy, ch: Chain, x: ChainEnd, m: nat, y: ChainEnd, n: nat)
    requires ChainEndsAs(p, ch, x, m) && ChainEndsAs(p, ch, y, n)
    ensures x == y && m == n
  {
    hide HopEndsAs, HopConnects;
    StopsThere(p, ch, x, m);
    StopsThere(p, ch, y, n);
    NoneBefore(p, ch, x, m, y, n);
    NoneBefore(p, ch, y, n, x, m);
    if x.Unfetched? && y.Unfetched? {
      HopEndUnique(p, ch, m, x.why, y.why);
    }
  }

  lemma NoneBefore(p: Policy, ch: Chain, x: ChainEnd, m: nat, y: ChainEnd, n: nat)
    requires ChainEndsAs(p, ch, x, m) && ChainEndsAs(p, ch, y, n)
    ensures LastHop(x, m) >= LastHop(y, n)
  {
    hide HopEndsAs, HopConnects, ChainEndsAs, Arrives;
    StopsThere(p, ch, x, m);
    StopsThere(p, ch, y, n);
    if LastHop(x, m) < LastHop(y, n) {
      ArrivesPast(p, ch, LastHop(x, m), LastHop(y, n));
      assert false;
    }
  }

  lemma ArrivesPast(p: Policy, ch: Chain, i: nat, j: nat)
    requires Arrives(p, ch, j) && i < j
    ensures HopConnects(p, ch, i) && ch.server(i).Redirect?
  {
  }

  /** A chain whose hops all connect, and whose first final response is within the cap, is fetched with exactly
      the requests up to it; so one of exactly `max_redirects` redirects is followed to its end. */
  lemma FollowedToTheEnd(p: Policy, ch: Chain, k: nat, end: ChainEnd, sent: nat)
    requires ChainEndsAs(p, ch, end, sent)
    requires k <= p.maxRedirects && ch.server(k).Final? && forall i :: 0 <= i < k ==> ch.server(i).Redirect?
    requires forall i :: 0 <= i <= k ==> HopConnects(p, ch, i)
    ensures end == Fetched && sent == k + 1
  {
    hide HopConnects;
    assert ChainEndsAs(p, ch, Fetched, k + 1);
    ChainEndUnique(p, ch, end, sent, Fetched, k + 1);
  }

  // ---------- walking it ----------

  /** One chain of requests. At most `max_redirects` + 1 are sent, that many lookups made and that many times the
      attempt cap sockets asked for; the chain ends as its hops and the server say; and over the whole of it,
      whatever each lookup answered, nothing but permitted addresses is ever dialled. */
  method FetchChain(p: Policy, origins: nat -> Origin, server: nat -> Response, v6: string -> Option<nat>,
                    resolver: Resolver, kernel: Kernel)
    returns (end: ChainEnd, sent: nat)
    requires Constructed(p) && kernel.Valid()
    modifies resolver, kernel
    ensures kernel.Valid()
    ensures sent <= p.maxRedirects + 1
    ensures resolver.asked - old(resolver.asked) <= p.maxRedirects + 1
    ensures kernel.asked - old(kernel.asked) <= (p.maxRedirects + 1) * p.maxConnectionAttempts
    ensures old(kernel.dials) <= kernel.dials && OnlyPermitted(p, kernel.dials[old(kernel.asked)..])
    ensures ChainEndsAs(p, Chain(origins, server, v6, resolver.script, old(resolver.asked), kernel.script,
                                 old(kernel.asked)), end, sent)
  {
    hide HopConnects, HopStart, HopEndsAs, OnlyPermitted, Permits, Constructed, Arrives, ChainEndsAs;
    ghost var ch := Chain(origins, server, v6, resolver.script, resolver.asked, kernel.script, kernel.asked);
    sent := 0;
    var history: nat := 0;
    ghost var spent := 0;
    ghost var log: seq<Option<Target>> := [];
    NothingDialled(p);
    FirstHop(p, ch);
    while true
      invariant kernel.Valid() && sent == history <= p.maxRedirects
      invariant Arrives(p, ch, history)
      invariant resolver.asked == old(resolver.asked) + history && kernel.asked == HopStart(p, ch, history)
      invariant spent == history * p.maxConnectionAttempts && kernel.asked - old(kernel.asked) <= spent
      invariant kernel.dials == old(kernel.dials) + log && OnlyPermitted(p, log)
      decreases p.maxRedirects - history
    {
      BudgetGrows(history, p.maxRedirects, p.maxConnectionAttempts);
      spent := spent + p.maxConnectionAttempts;
      ghost var before := kernel.dials;
      var stream := Hop(p, origins(history), v6, resolver, kernel, ch, history);
      PermittedTogether(p, log, kernel.dials[|before|..]);
      log := log + kernel.dials[|before|..];
      assert kernel.dials[old(kernel.asked)..] == log;
      if !stream.Stream? {
        EndsUnfetched(p, ch, history, stream);
        return Unfetched(stream), sent;
      }
      Connects(p, ch, history, stream);
      sent := sent + 1;
      if server(history).Final? {
        EndsFetched(p, ch, history);
        return Fetched, sent;
      }
      OneHopOn(p, ch, history);
      if PastTheCap(p, history) {
        EndsAtTheCap(p, ch, history);
        return TooManyRedirects(history + 1), sent;
      }
      history := history + 1;
    }
  }

  /** One hop: its connection ends as the lookup and the sockets say, and takes as many sockets as it tries. */
  method Hop(p: Policy, o: Origin, v6: string -> Option<nat>, resolver: Resolver, kernel: Kernel,
             ghost ch: Chain, ghost i: nat)
    returns (end: ClientEnd)
    requires Constructed(p) && kernel.Valid() && o == ch.origins(i) && v6 == ch.v6
    requires resolver.script == ch.answers && resolver.asked == ch.lookup + i
    requires kernel.script == ch.sockets && kernel.asked == HopStart(p, ch, i)
    modifies resolver, kernel
    ensures kernel.Valid() && HopEndsAs(p, ch, i, end)
    ensures resolver.asked <= old(resolver.asked) + 1
    ensures end.Stream? ==> resolver.asked == old(resolver.asked) + 1 && kernel.asked == HopStart(p, ch, i + 1)
    ensures kernel.asked - old(kernel.asked) <= p.maxConnectionAttempts
    ensures old(kernel.dials) <= kernel.dials && OnlyPermitted(p, kernel.dials[old(kernel.asked)..])
  {
    hide Constructed, SyncEnd, SyncTried, OriginAllowed, OnlyPinned, OnlyPermitted, Permits, Dials;
    hide ConnectsAs, LookupEndsAs, Pinned;
    end := ConnectTcp(p, o, v6, resolver, kernel);
  }

  lemma FirstHop(p: Policy, ch: Chain)
    ensures HopStart(p, ch, 0) == ch.socket && Arrives(p, ch, 0)
  {
  }

  lemma Connects(p: Policy, ch: Chain, i: nat, end: ClientEnd)
    requires end.Stream? && HopEndsAs(p, ch, i, end)
    ensures HopConnects(p, ch, i)
  {
    hide HopEndsAs;
  }

  lemma OneHopOn(p: Policy, ch: Chain, i: nat)
    requires Arrives(p, ch, i) && HopConnects(p, ch, i) && ch.server(i).Redirect?
    ensures Arrives(p, ch, i + 1)
  {
    hide HopConnects;
  }

  lemma EndsUnfetched(p: Policy, ch: Chain, i: nat, why: ClientEnd)
    requires i <= p.maxRedirects && Arrives(p, ch, i) && !why.Stream? && HopEndsAs(p, ch, i, why)
    ensures ChainEndsAs(p, ch, Unfetched(why), i)
  {
    hide Arrives, HopEndsAs;
  }

  lemma EndsFetched(p: Policy, ch: Chain, i: nat)
    requires i <= p.maxRedirects && Arrives(p, ch, i) && HopConnects(p, ch, i) && ch.server(i).Final?
    ensures ChainEndsAs(p, ch, Fetched, i + 1)
  {
    hide Arrives, HopConnects;
  }

  lemma EndsAtTheCap(p: Policy, ch: Chain, i: nat)
    requires i == p.maxRedirects && Arrives(p, ch, i + 1)
    ensures ChainEndsAs(p, ch, TooManyRedirects(i + 1), i + 1)
  {
    hide Arrives;
  }

  lemma PermittedTogether(p: Policy, before: seq<Option<Target>>, log: seq<Option<Target>>)
    requires OnlyPermitted(p, before) && OnlyPermitted(p, log)
    ensures OnlyPermitted(p, before + log)
  {
    hide Permits;
  }

  lemma BudgetGrows(history: nat, limit: nat, cap: nat)
    requires history <= limit
    ensures (history + 1) * cap == history * cap + cap <= (limit + 1) * cap
  {
    assert (limit - history) * cap >= 0;
  }
}

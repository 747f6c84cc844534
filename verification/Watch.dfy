/** RebindingWatch: a bounded, expiring memory of what each host was permitted to reach, and the closed
    form of that memory as a function of the decisions seen. */
module Watch {
  import opened Wire

  datatype Stage = Url | AtAddress | Peer | Redirect

  /** A decision as far as the watch reads or writes it; addresses are their text. */
  datatype Decision = Decision(
    stage: Stage, permitted: bool, host: Option<string>, address: string, alsoSeen: seq<string>)

  /** An address decision whose host is known, and when it was looked at. */
  datatype Event = Event(host: string, address: string, permitted: bool, at: real)

  /** One entry of the ordered map: the addresses in the order first seen, and when the last one was. */
  datatype Sighting = Sighting(host: string, addresses: seq<string>, at: real)

  datatype Bounds = Bounds(window: real, capacity: nat)

  // ---------- the history function ----------

  /** The index of the last permit of a host, or -1. */
  function LastPermit(h: seq<Event>, host: string): (i: int)
    ensures -1 <= i < |h|
    ensures i >= 0 ==> h[i].permitted && h[i].host == host
    ensures forall k :: i < k < |h| ==> !(h[k].permitted && h[k].host == host)
  {
    if h == [] then -1
    else if h[|h| - 1].permitted && h[|h| - 1].host == host then |h| - 1
    else LastPermit(h[..|h| - 1], host)
  }

  /** The distinct other hosts permitted after index `i`. */
  function OthersSince(h: seq<Event>, i: int, host: string): (s: set<string>)
    requires -1 <= i
  {
    set k | i < k < |h| && h[k].permitted && h[k].host != host :: h[k].host
  }

  /** A host is remembered while its last permit is within the window and fewer than `capacity` distinct
      other hosts have been permitted since. */
  predicate Remembered(h: seq<Event>, b: Bounds, now: real, host: string) {
    var i := LastPermit(h, host);
    i >= 0 && now - h[i].at <= b.window && |OthersSince(h, i, host)| < b.capacity
  }

  function AddOnce(addresses: seq<string>, a: string): (out: seq<string>) {
    if a in addresses then addresses else addresses + [a]
  }

  /** The addresses remembered for a host: what a permit adds to, or starts over when its host is not
      remembered. `AddressesMeaning` says which they are. */
  function Addresses(h: seq<Event>, b: Bounds, host: string): (out: seq<string>)
    decreases |h|
  {
    var i := LastPermit(h, host);
    if i < 0 then []
    else AddOnce(if Remembered(h[..i], b, h[i].at, host) then Addresses(h[..i], b, host) else [], h[i].address)
  }

  // ---------- which addresses those are ----------

  predicate PermitOf(e: Event, host: string) {
    e.permitted && e.host == host
  }

  /** The permit at `k` found its host not remembered, so the host became resident there. */
  predicate Arrival(h: seq<Event>, b: Bounds, host: string, k: nat)
    requires k < |h|
  {
    PermitOf(h[k], host) && !Remembered(h[..k], b, h[k].at, host)
  }

  /** Where a host last became resident among the first `n` events, or -1. */
  function LastArrival(h: seq<Event>, b: Bounds, host: string, n: nat): (r: int)
    requires n <= |h|
    ensures -1 <= r < n
    ensures r >= 0 ==> Arrival(h, b, host, r)
    ensures forall k :: r < k < n ==> !Arrival(h, b, host, k)
  {
    if n == 0 then -1 else if Arrival(h, b, host, n - 1) then n - 1 else LastArrival(h, b, host, n - 1)
  }

  /** Some permit of the host at or after `r` carries the address. */
  ghost predicate PermittedSince(h: seq<Event>, host: string, r: int, address: string) {
    exists k :: 0 <= k < |h| && r <= k && PermitOf(h[k], host) && h[k].address == address
  }

  /** Before any permit of a later address of the list there is, since `r`, a permit of each earlier one. */
  ghost predicate FirstSeenOrder(h: seq<Event>, host: string, r: int, addresses: seq<string>) {
    forall i, j, k :: 0 <= i < j < |addresses| && 0 <= k < |h| && r <= k
      && PermitOf(h[k], host) && h[k].address == addresses[j]
      ==> PermittedSince(h[..k], host, r, addresses[i])
  }

  ghost predicate Distinct(addresses: seq<string>) {
    forall i, j :: 0 <= i < j < |addresses| ==> addresses[i] != addresses[j]
  }

  /** The list is what was permitted for the host since `r`: each address once, in the order first seen. */
  ghost predicate SeenSince(h: seq<Event>, host: string, r: int, addresses: seq<string>) {
    && Distinct(addresses)
    && (forall a :: a in addresses <==> PermittedSince(h, host, r, a))
    && FirstSeenOrder(h, host, r, addresses)
  }

  /** What is remembered for a host are exactly the distinct addresses permitted since it last became
      resident, in the order they were first seen since then. */
  lemma {:induction false} AddressesMeaning(h: seq<Event>, b: Bounds, host: string)
    requires LastPermit(h, host) >= 0
    ensures LastArrival(h, b, host, |h|) >= 0
    ensures SeenSince(h, host, LastArrival(h, b, host, |h|), Addresses(h, b, host))
    decreases |h|
  {
    hide SeenSince, Remembered;
    var i := LastPermit(h, host);
    var front := h[..i];
    assert forall k :: 0 <= k < i ==> front[..k] == h[..k];
    if Remembered(front, b, h[i].at, host) {
      RememberedWasPermitted(front, b, h[i].at, host);
      AddressesMeaning(front, b, host);
      var r := LastArrival(front, b, host, i);
      assert Arrival(h, b, host, r);
      assert forall k :: 0 <= k < i && Arrival(h, b, host, k) ==> Arrival(front, b, host, k);
      assert LastArrival(h, b, host, |h|) == r;
      OneMoreSeen(h, host, r, i, Addresses(front, b, host));
    } else {
      assert Arrival(h, b, host, i);
      assert LastArrival(h, b, host, |h|) == i;
      NothingSeenYet(front, host, i);
      OneMoreSeen(h, host, i, i, []);
    }
  }

  lemma RememberedWasPermitted(h: seq<Event>, b: Bounds, now: real, host: string)
    requires Remembered(h, b, now, host)
    ensures LastPermit(h, host) >= 0
  {
  }

  lemma NothingSeenYet(h: seq<Event>, host: string, r: int)
    requires |h| <= r
    ensures SeenSince(h, host, r, [])
  {
  }

  /** The last permit of the host adds its address, at the end and once. */
  lemma OneMoreSeen(h: seq<Event>, host: string, r: int, i: nat, addresses: seq<string>)
    requires i < |h| && r <= i && PermitOf(h[i], host) && forall k :: i < k < |h| ==> !PermitOf(h[k], host)
    requires SeenSince(h[..i], host, r, addresses)
    ensures SeenSince(h, host, r, AddOnce(addresses, h[i].address))
  {
    hide PermitOf;
    var front, out := h[..i], AddOnce(addresses, h[i].address);
    forall a
      ensures PermittedSince(h, host, r, a) <==> PermittedSince(front, host, r, a) || a == h[i].address
    {
      if PermittedSince(front, host, r, a) {
        var k :| 0 <= k < i && r <= k && PermitOf(front[k], host) && front[k].address == a;
        assert h[k] == front[k];
      }
      if PermittedSince(h, host, r, a) && a != h[i].address {
        var k :| 0 <= k < |h| && r <= k && PermitOf(h[k], host) && h[k].address == a;
        assert front[k] == h[k];
      }
    }
    forall x, y, k | 0 <= x < y < |out| && 0 <= k < |h| && r <= k && PermitOf(h[k], host) && h[k].address == out[y]
      ensures PermittedSince(h[..k], host, r, out[x])
    {
      assert k <= i && out[x] in addresses;
      if k < i {
        assert front[k] == h[k] && front[..k] == h[..k];
        assert out[y] in addresses by {
          assert PermittedSince(front, host, r, out[y]);
        }
      }
    }
  }

  predicate Monotone(h: seq<Event>) {
    forall i, j :: 0 <= i < j < |h| ==> h[i].at <= h[j].at
  }

  // ---------- the ordered map ----------

  function Hosts(m: seq<Sighting>): (s: set<string>) {
    set k | 0 <= k < |m| :: m[k].host
  }

  function Find(m: seq<Sighting>, host: string): (s: Option<Sighting>)
    ensures s.Some? ==> s.value in m && s.value.host == host
    ensures s.None? ==> host !in Hosts(m)
  {
    if m == [] then None
    else if m[0].host == host then Some(m[0])
    else
      assert m == [m[0]] + m[1..];
      Find(m[1..], host)
  }

  function Without(m: seq<Sighting>, host: string): (out: seq<Sighting>)
    ensures forall s :: s in out <==> s in m && s.host != host
    ensures |out| <= |m|
  {
    if m == [] then []
    else
      assert m == [m[0]] + m[1..];
      (if m[0].host == host then [] else [m[0]]) + Without(m[1..], host)
  }

  function Fresh(m: seq<Sighting>, b: Bounds, now: real): (out: seq<Sighting>)
    ensures forall s :: s in out <==> s in m && now - s.at <= b.window
    ensures |out| <= |m|
  {
    if m == [] then []
    else
      assert m == [m[0]] + m[1..];
      (if now - m[0].at > b.window then [] else [m[0]]) + Fresh(m[1..], b, now)
  }

  function Newest(m: seq<Sighting>, capacity: nat): (out: seq<Sighting>) {
    if |m| > capacity then m[|m| - capacity..] else m
  }

  /** One entry is what the history says of its host. */
  ghost predicate Tells(s: Sighting, h: seq<Event>, b: Bounds, now: real) {
    && Remembered(h, b, now, s.host)
    && s.at == h[LastPermit(h, s.host)].at
    && s.addresses == Addresses(h, b, s.host)
  }

  /** The map is oldest permit first. */
  ghost predicate ByLastPermit(m: seq<Sighting>, h: seq<Event>) {
    forall i, j :: 0 <= i < j < |m| ==> LastPermit(h, m[i].host) < LastPermit(h, m[j].host)
  }

  /** The map is the history's: exactly the remembered hosts, each told truly, in order of last permit. */
  ghost predicate Agrees(m: seq<Sighting>, h: seq<Event>, b: Bounds, now: real) {
    && Monotone(h)
    && (h != [] ==> h[|h| - 1].at <= now)
    && (forall s :: s in m ==> Tells(s, h, b, now))
    && (forall host :: Remembered(h, b, now, host) ==> host in Hosts(m))
    && ByLastPermit(m, h)
  }

  // ---------- one more event ----------

  lemma OneMoreEvent(h: seq<Event>, e: Event, host: string)
    ensures LastPermit(h + [e], host) == if e.permitted && e.host == host then |h| else LastPermit(h, host)
  {
    assert (h + [e])[..|h|] == h;
  }

  lemma OthersGrow(h: seq<Event>, e: Event, i: int, host: string)
    requires -1 <= i < |h|
    ensures OthersSince(h + [e], i, host) ==
            OthersSince(h, i, host) + (if e.permitted && e.host != host then {e.host} else {})
  {
    var h' := h + [e];
    assert forall k :: 0 <= k < |h| ==> h'[k] == h[k];
    if e.permitted && e.host != host {
      assert h'[|h|].host in OthersSince(h', i, host);
    }
    forall g | g in OthersSince(h, i, host)
      ensures g in OthersSince(h', i, host)
    {
      var k :| i < k < |h| && h[k].permitted && h[k].host != host && h[k].host == g;
      assert h'[k].host == g;
    }
  }

  lemma AddressesStay(h: seq<Event>, e: Event, b: Bounds, host: string)
    requires !(e.permitted && e.host == host)
    ensures Addresses(h + [e], b, host) == Addresses(h, b, host)
  {
    OneMoreEvent(h, e, host);
    var i := LastPermit(h, host);
    if i >= 0 {
      assert (h + [e])[..i] == h[..i];
    }
  }

  lemma AddressesGrow(h: seq<Event>, e: Event, b: Bounds)
    requires e.permitted
    ensures Addresses(h + [e], b, e.host) ==
            AddOnce(if Remembered(h, b, e.at, e.host) then Addresses(h, b, e.host) else [], e.address)
  {
    OneMoreEvent(h, e, e.host);
    assert (h + [e])[..|h|] == h;
  }

  // ---------- positions ----------

  /** In a map that agrees, the hosts behind an entry are the other hosts permitted since its own last permit. */
  lemma HostsBehind(m: seq<Sighting>, h: seq<Event>, b: Bounds, now: real, p: nat)
    requires Agrees(m, h, b, now) && p < |m|
    ensures OthersSince(h, LastPermit(h, m[p].host), m[p].host) == Hosts(m[p + 1..])
  {
    hide Agrees, LastPermit, OthersSince, Hosts;
    var others := OthersSince(h, LastPermit(h, m[p].host), m[p].host);
    forall g | g in others
      ensures g in Hosts(m[p + 1..])
    {
      OtherIsBehind(m, h, b, now, p, g);
    }
    forall g | g in Hosts(m[p + 1..])
      ensures g in others
    {
      var q := PositionOf(m[p + 1..], g);
      AgreesInOrder(m, h, b, now);
      InOrderAt(m, h, p, p + 1 + q);
      AgreesPermitted(m, h, b, now, p);
      PermittedAfter(h, LastPermit(h, m[p].host), m[p].host, g);
    }
  }

  lemma OtherIsBehind(m: seq<Sighting>, h: seq<Event>, b: Bounds, now: real, p: nat, g: string)
    requires Agrees(m, h, b, now) && p < |m| && g in OthersSince(h, LastPermit(h, m[p].host), m[p].host)
    ensures g in Hosts(m[p + 1..])
  {
    hide Addresses, LastPermit, OthersSince, Hosts, ByLastPermit, Remembered;
    assert Tells(m[p], h, b, now);
    LaterIsRemembered(h, b, now, m[p].host, g);
    var q := PositionOf(m, g);
    OrderReflects(m, h, p, q);
    HostAt(m[p + 1..], q - p - 1);
  }

  lemma AgreesInOrder(m: seq<Sighting>, h: seq<Event>, b: Bounds, now: real)
    requires Agrees(m, h, b, now)
    ensures ByLastPermit(m, h)
  {
  }

  lemma AgreesPermitted(m: seq<Sighting>, h: seq<Event>, b: Bounds, now: real, p: nat)
    requires Agrees(m, h, b, now) && p < |m|
    ensures Remembered(h, b, now, m[p].host) && LastPermit(h, m[p].host) >= 0
  {
    hide Addresses, OthersSince, LastPermit;
    assert Tells(m[p], h, b, now);
  }

  /** A host permitted after a remembered one is remembered. */
  lemma LaterIsRemembered(h: seq<Event>, b: Bounds, now: real, host: string, later: string)
    requires Monotone(h) && Remembered(h, b, now, host)
    requires later in OthersSince(h, LastPermit(h, host), host)
    ensures Remembered(h, b, now, later) && LastPermit(h, host) < LastPermit(h, later)
  {
    var i, k := LastPermit(h, host), LastPermit(h, later);
    var j :| i < j < |h| && h[j].permitted && h[j].host == later;
    assert j <= k;
    forall g | g in OthersSince(h, k, later)
      ensures g in OthersSince(h, i, host)
    {
      var n :| k < n < |h| && h[n].permitted && h[n].host != later && h[n].host == g;
      assert h[n].host != host;
    }
    Subset(OthersSince(h, k, later), OthersSince(h, i, host));
  }

  lemma Subset(s: set<string>, t: set<string>)
    requires s <= t
    ensures |s| <= |t|
  {
    assert t == s + (t - s);
  }

  /** Distinct hosts are counted by position. */
  lemma {:induction false} CountHosts(m: seq<Sighting>)
    requires forall i, j :: 0 <= i < j < |m| ==> m[i].host != m[j].host
    ensures |Hosts(m)| == |m|
  {
    hide Hosts;
    if m == [] {
      NoHosts();
    } else {
      var front, last := m[..|m| - 1], m[|m| - 1];
      CountHosts(front);
      HostsAppend(front, last);
      assert m == front + [last];
      LastIsNew(m);
    }
  }

  lemma NoHosts()
    ensures Hosts([]) == {}
  {
  }

  lemma LastIsNew(m: seq<Sighting>)
    requires m != [] && forall i, j :: 0 <= i < j < |m| ==> m[i].host != m[j].host
    ensures m[|m| - 1].host !in Hosts(m[..|m| - 1])
  {
  }

  // ---------- expiry ----------

  lemma {:induction false} FreshInOrder(m: seq<Sighting>, h: seq<Event>, b: Bounds, now: real)
    requires ByLastPermit(m, h)
    ensures ByLastPermit(Fresh(m, b, now), h)
  {
    hide ByLastPermit;
    if m == [] {
      NoneInOrder(h);
    } else {
      FirstInOrder(m, h);
      FreshInOrder(m[1..], h, b, now);
      BehindFirst(m, Fresh(m[1..], b, now), h);
    }
  }

  lemma NoneInOrder(h: seq<Event>)
    ensures ByLastPermit([], h)
  {
  }

  /** The first entry's host was last permitted before those of the rest. */
  ghost predicate LeadsAll(first: Sighting, rest: seq<Sighting>, h: seq<Event>) {
    forall s :: s in rest ==> LastPermit(h, first.host) < LastPermit(h, s.host)
  }

  lemma FirstInOrder(m: seq<Sighting>, h: seq<Event>)
    requires m != [] && ByLastPermit(m, h)
    ensures ByLastPermit(m[1..], h) && LeadsAll(m[0], m[1..], h)
  {
    hide LastPermit;
    forall s | s in m[1..]
      ensures LastPermit(h, m[0].host) < LastPermit(h, s.host)
    {
      var i :| 0 <= i < |m[1..]| && m[1..][i] == s;
      assert m[i + 1] == s;
    }
  }

  /** Some of the rest, in order, stays in order behind the first. */
  lemma BehindFirst(m: seq<Sighting>, some: seq<Sighting>, h: seq<Event>)
    requires m != [] && LeadsAll(m[0], m[1..], h) && ByLastPermit(some, h) && forall s :: s in some ==> s in m[1..]
    ensures ByLastPermit([m[0]] + some, h) && [] + some == some
  {
    hide LastPermit;
    var all := [m[0]] + some;
    assert forall i :: 1 <= i < |all| ==> all[i] in some;
  }

  /** Looking later only forgets what has left the window. */
  lemma ForgetAgrees(m: seq<Sighting>, h: seq<Event>, b: Bounds, before: real, now: real)
    requires Agrees(m, h, b, before) && before <= now
    ensures Agrees(Fresh(m, b, now), h, b, now)
  {
    hide Addresses, OthersSince;
    FreshInOrder(m, h, b, now);
    forall host | Remembered(h, b, now, host)
      ensures host in Hosts(Fresh(m, b, now))
    {
      assert Remembered(h, b, before, host);
      var k :| 0 <= k < |m| && m[k].host == host;
      assert Tells(m[k], h, b, before);
      assert m[k] in Fresh(m, b, now);
    }
  }

  /** What expires is the front of the map. */
  lemma {:induction false} ExpiryTakesAPrefix(m: seq<Sighting>, h: seq<Event>, b: Bounds, before: real, now: real)
    returns (k: nat)
    requires Agrees(m, h, b, before)
    ensures k <= |m| && Fresh(m, b, now) == m[k..]
  {
    forall i, j | 0 <= i < j < |m|
      ensures m[i].at <= m[j].at
    {
      assert Tells(m[i], h, b, before) && Tells(m[j], h, b, before);
    }
    k := SortedExpiry(m, b, now);
  }

  lemma {:induction false} SortedExpiry(m: seq<Sighting>, b: Bounds, now: real) returns (k: nat)
    requires forall i, j :: 0 <= i < j < |m| ==> m[i].at <= m[j].at
    ensures k <= |m| && Fresh(m, b, now) == m[k..]
  {
    if m == [] || now - m[0].at <= b.window {
      AllFresh(m, b, now);
      k := 0;
    } else {
      k := SortedExpiry(m[1..], b, now);
      assert m[1..][k..] == m[k + 1..];
      k := k + 1;
    }
  }

  lemma {:induction false} AllFresh(m: seq<Sighting>, b: Bounds, now: real)
    requires forall i :: 0 <= i < |m| ==> now - m[i].at <= b.window
    ensures Fresh(m, b, now) == m
  {
    if m != [] {
      AllFresh(m[1..], b, now);
    }
  }

  // ---------- a refusal ----------

  lemma RefusalAgrees(m: seq<Sighting>, h: seq<Event>, b: Bounds, e: Event)
    requires Agrees(m, h, b, e.at) && !e.permitted
    ensures Agrees(m, h + [e], b, e.at)
  {
    hide Addresses, OthersSince, LastPermit;
    forall host: string
      ensures LastPermit(h + [e], host) == LastPermit(h, host)
      ensures Remembered(h + [e], b, e.at, host) <==> Remembered(h, b, e.at, host)
      ensures Addresses(h + [e], b, host) == Addresses(h, b, host)
    {
      OneMoreEvent(h, e, host);
      AddressesStay(h, e, b, host);
      if LastPermit(h, host) >= 0 {
        OthersGrow(h, e, LastPermit(h, host), host);
      }
    }
  }

  // ---------- a permit ----------

  lemma {:induction false} WithoutInOrder(m: seq<Sighting>, h: seq<Event>, host: string)
    requires ByLastPermit(m, h)
    ensures ByLastPermit(Without(m, host), h)
  {
    hide ByLastPermit;
    if m == [] {
      NoneInOrder(h);
    } else {
      FirstInOrder(m, h);
      WithoutInOrder(m[1..], h, host);
      BehindFirst(m, Without(m[1..], host), h);
    }
  }

  /** The map after a permit and before anything is evicted. */
  function Moved(m: seq<Sighting>, e: Event): (out: seq<Sighting>) {
    var known := Find(m, e.host);
    Without(m, e.host) + [Sighting(e.host, AddOnce(if known.None? then [] else known.value.addresses, e.address), e.at)]
  }

  /** Everything but the capacity: the moved map tells the truth in order about every host that is within
      the window, and counts the hosts permitted since by position. */
  ghost predicate AlmostAgrees(m: seq<Sighting>, h: seq<Event>, b: Bounds, now: real) {
    && ByLastPermit(m, h)
    && (forall s :: s in m ==>
          && LastPermit(h, s.host) >= 0 && now - h[LastPermit(h, s.host)].at <= b.window
          && s.at == h[LastPermit(h, s.host)].at && s.addresses == Addresses(h, b, s.host))
    && (forall p :: 0 <= p < |m| ==> OthersSince(h, LastPermit(h, m[p].host), m[p].host) == Hosts(m[p + 1..]))
    && (forall host :: Remembered(h, b, now, host) ==> host in Hosts(m))
  }

  /** Behind position `p` there are as many hosts as entries. */
  lemma HostsBehindCount(m: seq<Sighting>, h: seq<Event>, p: nat)
    requires ByLastPermit(m, h) && p < |m|
    ensures |Hosts(m[p + 1..])| == |m| - 1 - p
  {
    hide LastPermit;
    var behind := m[p + 1..];
    forall i, j | 0 <= i < j < |behind|
      ensures behind[i].host != behind[j].host
    {
      assert LastPermit(h, m[p + 1 + i].host) < LastPermit(h, m[p + 1 + j].host);
    }
    CountHosts(behind);
  }

  lemma NewestInOrder(m: seq<Sighting>, h: seq<Event>, capacity: nat)
    requires ByLastPermit(m, h)
    ensures ByLastPermit(Newest(m, capacity), h)
  {
  }

  lemma RememberedByPosition(m: seq<Sighting>, h: seq<Event>, b: Bounds, now: real, p: nat)
    requires AlmostAgrees(m, h, b, now) && p < |m|
    ensures Remembered(h, b, now, m[p].host) <==> |m| - 1 - p < b.capacity
    ensures Remembered(h, b, now, m[p].host) ==> Tells(m[p], h, b, now)
  {
    hide Addresses, OthersSince, LastPermit, ByLastPermit;
    assert m[p] in m;
    HostsBehindCount(m, h, p);
  }

  lemma PositionOf(m: seq<Sighting>, host: string) returns (p: nat)
    requires host in Hosts(m)
    ensures p < |m| && m[p].host == host
  {
    p :| p < |m| && m[p].host == host;
  }

  lemma HostAt(m: seq<Sighting>, p: nat)
    requires p < |m|
    ensures m[p].host in Hosts(m)
  {
  }

  /** Evicting from the front down to the capacity keeps exactly the hosts fewer than `capacity` others follow. */
  lemma EvictionAgrees(m: seq<Sighting>, h: seq<Event>, b: Bounds, now: real)
    requires AlmostAgrees(m, h, b, now) && Monotone(h) && (h != [] ==> h[|h| - 1].at <= now)
    ensures Agrees(Newest(m, b.capacity), h, b, now)
  {
    hide Addresses, OthersSince, LastPermit, ByLastPermit, AlmostAgrees, Remembered, Hosts, Tells, Newest;
    var kept := Newest(m, b.capacity);
    var d := NewestPart(m, b.capacity);
    AlmostInOrder(m, h, b, now);
    NewestInOrder(m, h, b.capacity);
    forall s | s in kept
      ensures Tells(s, h, b, now)
    {
      var q :| 0 <= q < |kept| && kept[q] == s;
      RememberedByPosition(m, h, b, now, d + q);
    }
    forall host | Remembered(h, b, now, host)
      ensures host in Hosts(kept)
    {
      AlmostCovers(m, h, b, now, host);
      var p := PositionOf(m, host);
      RememberedByPosition(m, h, b, now, p);
      HostAt(kept, p - d);
    }
  }

  lemma NewestPart(m: seq<Sighting>, capacity: nat) returns (d: nat)
    ensures d <= |m| && Newest(m, capacity) == m[d..] && (d == 0 || d == |m| - capacity) && |m| - d <= capacity
  {
    d := |m| - |Newest(m, capacity)|;
  }

  lemma AlmostInOrder(m: seq<Sighting>, h: seq<Event>, b: Bounds, now: real)
    requires AlmostAgrees(m, h, b, now)
    ensures ByLastPermit(m, h)
  {
  }

  lemma AlmostCovers(m: seq<Sighting>, h: seq<Event>, b: Bounds, now: real, host: string)
    requires AlmostAgrees(m, h, b, now) && Remembered(h, b, now, host)
    ensures host in Hosts(m)
  {
    hide Remembered, Hosts;
  }

  /** What a permit leaves alone about every other host. */
  lemma OthersKeep(h: seq<Event>, e: Event, b: Bounds, now: real, host: string)
    requires e.permitted && e.host != host
    ensures LastPermit(h + [e], host) == LastPermit(h, host)
    ensures Addresses(h + [e], b, host) == Addresses(h, b, host)
    ensures LastPermit(h, host) >= 0 ==>
              OthersSince(h + [e], LastPermit(h, host), host) == OthersSince(h, LastPermit(h, host), host) + {e.host}
    ensures Remembered(h + [e], b, now, host) ==> Remembered(h, b, now, host)
  {
    hide Addresses, OthersSince;
    OneMoreEvent(h, e, host);
    AddressesStay(h, e, b, host);
    var i := LastPermit(h, host);
    if i >= 0 {
      OthersGrow(h, e, i, host);
      Subset(OthersSince(h, i, host), OthersSince(h + [e], i, host));
    }
  }

  lemma MovedInOrder(m: seq<Sighting>, h: seq<Event>, b: Bounds, e: Event)
    requires Agrees(m, h, b, e.at) && e.permitted
    ensures ByLastPermit(Moved(m, e), h + [e])
  {
    hide Addresses, OthersSince, Remembered, Tells, Hosts, LastPermit;
    var w := Without(m, e.host);
    WithoutInOrder(m, h, e.host);
    OneMoreEvent(h, e, e.host);
    forall i | 0 <= i < |w|
      ensures LastPermit(h + [e], w[i].host) == LastPermit(h, w[i].host) < |h|
    {
      assert w[i] in w;
      OneMoreEvent(h, e, w[i].host);
      LastPermitBound(h, w[i].host);
    }
  }

  lemma LastPermitBound(h: seq<Event>, host: string)
    ensures LastPermit(h, host) < |h|
  {
  }

  /** The entry a permit appends is what the longer history says of its host. */
  lemma MovedTellsItsHost(m: seq<Sighting>, h: seq<Event>, b: Bounds, e: Event)
    requires Agrees(m, h, b, e.at) && e.permitted
    ensures var s := Moved(m, e)[|Moved(m, e)| - 1];
            && s.host == e.host && s.at == e.at && s.addresses == Addresses(h + [e], b, e.host)
  {
    hide Addresses, OthersSince, LastPermit;
    AddressesGrow(h, e, b);
    var known := Find(m, e.host);
    if known.Some? {
      assert Tells(known.value, h, b, e.at);
    }
  }

  lemma MovedTellsOthers(m: seq<Sighting>, h: seq<Event>, b: Bounds, e: Event, s: Sighting)
    requires Agrees(m, h, b, e.at) && e.permitted && s in Without(m, e.host)
    ensures var i := LastPermit(h + [e], s.host);
            && i >= 0 && e.at - (h + [e])[i].at <= b.window && s.at == (h + [e])[i].at
            && s.addresses == Addresses(h + [e], b, s.host)
  {
    hide Addresses, OthersSince, LastPermit;
    assert Tells(s, h, b, e.at);
    OthersKeep(h, e, b, e.at, s.host);
    LastPermitBound(h, s.host);
  }

  /** Behind an entry of the moved map stand exactly the hosts permitted since, the new one last. */
  lemma MovedHostsBehind(m: seq<Sighting>, h: seq<Event>, b: Bounds, e: Event, p: nat)
    requires Agrees(m, h, b, e.at) && e.permitted && p < |Without(m, e.host)|
    ensures var g := Moved(m, e)[p].host;
            OthersSince(h + [e], LastPermit(h + [e], g), g) == Hosts(Moved(m, e)[p + 1..])
  {
    hide Agrees, LastPermit, OthersSince, Hosts, Moved, Without;
    var w := Without(m, e.host);
    var g := w[p].host;
    MovedParts(m, e);
    KeptIsRemembered(m, h, b, e, p);
    OthersKeep(h, e, b, e.at, g);
    forall x | x in OthersSince(h, LastPermit(h, g), g) && x != e.host
      ensures x in Hosts(w[p + 1..])
    {
      OtherIsKeptBehind(m, h, b, e, p, x);
    }
    forall x | x in Hosts(w[p + 1..])
      ensures x in OthersSince(h, LastPermit(h, g), g)
    {
      var r := PositionOf(w[p + 1..], x);
      AgreesInOrder(m, h, b, e.at);
      WithoutInOrder(m, h, e.host);
      InOrderAt(w, h, p, p + 1 + r);
      PermittedAfter(h, LastPermit(h, g), g, x);
    }
    assert Moved(m, e)[p + 1..] == w[p + 1..] + [Moved(m, e)[|w|]];
    HostsAppend(w[p + 1..], Moved(m, e)[|w|]);
  }

  lemma KeptIsRemembered(m: seq<Sighting>, h: seq<Event>, b: Bounds, e: Event, p: nat)
    requires Agrees(m, h, b, e.at) && p < |Without(m, e.host)|
    ensures var g := Without(m, e.host)[p].host;
            g != e.host && Remembered(h, b, e.at, g) && LastPermit(h, g) >= 0
  {
    hide Addresses, Remembered, LastPermit, OthersSince, Hosts, ByLastPermit;
    var s := Without(m, e.host)[p];
    assert s in Without(m, e.host);
    assert Tells(s, h, b, e.at);
    TellsIsRemembered(s, h, b, e.at);
  }

  lemma OtherIsKeptBehind(m: seq<Sighting>, h: seq<Event>, b: Bounds, e: Event, p: nat, x: string)
    requires Agrees(m, h, b, e.at) && p < |Without(m, e.host)| && x != e.host
    requires x in OthersSince(h, LastPermit(h, Without(m, e.host)[p].host), Without(m, e.host)[p].host)
    ensures x in Hosts(Without(m, e.host)[p + 1..])
  {
    hide Addresses, Remembered, LastPermit, OthersSince, Hosts, ByLastPermit, Without;
    KeptIsRemembered(m, h, b, e, p);
    LaterIsRemembered(h, b, e.at, Without(m, e.host)[p].host, x);
    WithoutInOrder(m, h, e.host);
    KeptBehind(m, h, e.host, p, x);
  }

  lemma MovedParts(m: seq<Sighting>, e: Event)
    ensures var w := Without(m, e.host);
            |Moved(m, e)| == |w| + 1 && Moved(m, e) == w + [Moved(m, e)[|w|]] && Moved(m, e)[|w|].host == e.host
  {
  }

  lemma InOrderAt(m: seq<Sighting>, h: seq<Event>, i: nat, j: nat)
    requires ByLastPermit(m, h) && i < j < |m|
    ensures LastPermit(h, m[i].host) < LastPermit(h, m[j].host) && m[i].host != m[j].host
  {
  }

  lemma HostsAppend(m: seq<Sighting>, s: Sighting)
    ensures Hosts(m + [s]) == Hosts(m) + {s.host}
  {
    var all := m + [s];
    assert all[|m|] == s;
    forall x | x in Hosts(m)
      ensures x in Hosts(all)
    {
      var p := PositionOf(m, x);
      assert all[p].host == x;
    }
  }

  /** A host of the map that is not taken out stands behind those last permitted before it. */
  lemma KeptBehind(m: seq<Sighting>, h: seq<Event>, host: string, p: nat, x: string)
    requires x in Hosts(m) && x != host && p < |Without(m, host)| && ByLastPermit(Without(m, host), h)
    requires LastPermit(h, Without(m, host)[p].host) < LastPermit(h, x)
    ensures x in Hosts(Without(m, host)[p + 1..])
  {
    hide LastPermit, Without;
    var w := Without(m, host);
    var q := PositionOf(m, x);
    assert m[q] in w;
    var r :| 0 <= r < |w| && w[r] == m[q];
    OrderReflects(w, h, p, r);
    HostAt(w[p + 1..], r - p - 1);
  }

  lemma OrderReflects(m: seq<Sighting>, h: seq<Event>, i: nat, j: nat)
    requires ByLastPermit(m, h) && i < |m| && j < |m| && LastPermit(h, m[i].host) < LastPermit(h, m[j].host)
    ensures i < j
  {
  }

  lemma TellsIsRemembered(s: Sighting, h: seq<Event>, b: Bounds, now: real)
    requires Tells(s, h, b, now)
    ensures Remembered(h, b, now, s.host) && LastPermit(h, s.host) >= 0
  {
  }

  lemma PermittedAfter(h: seq<Event>, i: int, host: string, later: string)
    requires -1 <= i < LastPermit(h, later) && later != host
    ensures later in OthersSince(h, i, host)
  {
    var k := LastPermit(h, later);
    assert h[k].host == later;
  }

  lemma NobodySince(h: seq<Event>, e: Event)
    requires e.permitted
    ensures OthersSince(h + [e], LastPermit(h + [e], e.host), e.host) == {}
  {
    OneMoreEvent(h, e, e.host);
  }

  lemma MovedTells(m: seq<Sighting>, h: seq<Event>, b: Bounds, e: Event, s: Sighting)
    requires Agrees(m, h, b, e.at) && e.permitted && b.window > 0.0 && s in Moved(m, e)
    ensures var i := LastPermit(h + [e], s.host);
            && i >= 0 && e.at - (h + [e])[i].at <= b.window && s.at == (h + [e])[i].at
            && s.addresses == Addresses(h + [e], b, s.host)
  {
    hide Addresses, Remembered, LastPermit, OthersSince, ByLastPermit, Tells;
    if s in Without(m, e.host) {
      MovedTellsOthers(m, h, b, e, s);
    } else {
      OneMoreEvent(h, e, e.host);
      MovedTellsItsHost(m, h, b, e);
    }
  }

  lemma MovedCovers(m: seq<Sighting>, h: seq<Event>, b: Bounds, e: Event, host: string)
    requires Agrees(m, h, b, e.at) && e.permitted && Remembered(h + [e], b, e.at, host)
    ensures host in Hosts(Moved(m, e))
  {
    hide Addresses, Remembered, LastPermit, OthersSince, ByLastPermit, Tells, Hosts;
    var w := Without(m, e.host);
    HostsAppend(w, Moved(m, e)[|w|]);
    if host != e.host {
      OthersKeep(h, e, b, e.at, host);
      var q := PositionOf(m, host);
      assert m[q] in w;
      var r :| 0 <= r < |w| && w[r] == m[q];
      HostAt(w, r);
    }
  }

  /** A permit moves its host to the end, and after eviction the map agrees with the longer history. */
  lemma PermitAgrees(m: seq<Sighting>, h: seq<Event>, b: Bounds, e: Event)
    requires Agrees(m, h, b, e.at) && e.permitted && b.window > 0.0
    ensures Agrees(Newest(Moved(m, e), b.capacity), h + [e], b, e.at)
  {
    hide Addresses, Remembered, LastPermit, OthersSince, ByLastPermit, Tells, Hosts, Moved;
    var h' := h + [e];
    var moved := Moved(m, e);
    MovedInOrder(m, h, b, e);
    forall s | s in moved
      ensures LastPermit(h', s.host) >= 0 && e.at - h'[LastPermit(h', s.host)].at <= b.window
      ensures s.at == h'[LastPermit(h', s.host)].at && s.addresses == Addresses(h', b, s.host)
    {
      MovedTells(m, h, b, e, s);
    }
    forall p | 0 <= p < |moved|
      ensures OthersSince(h', LastPermit(h', moved[p].host), moved[p].host) == Hosts(moved[p + 1..])
    {
      MovedShape(m, e);
      if p < |Without(m, e.host)| {
        MovedHostsBehind(m, h, b, e, p);
      } else {
        NobodySince(h, e);
      }
    }
    forall host | Remembered(h', b, e.at, host)
      ensures host in Hosts(moved)
    {
      MovedCovers(m, h, b, e, host);
    }
    EvictionAgrees(moved, h', b, e.at);
  }

  lemma MovedShape(m: seq<Sighting>, e: Event)
    ensures var n := |Without(m, e.host)|;
            |Moved(m, e)| == n + 1 && Moved(m, e)[n].host == e.host && Hosts(Moved(m, e)[n + 1..]) == {}
  {
  }

  // ---------- the watch ----------

  /** The other addresses a host was permitted for, when it is refused one. */
  function Others(addresses: seq<string>, address: string): (out: seq<string>)
    ensures forall a :: a in out <==> a in addresses && a != address
  {
    if addresses == [] then []
    else
      assert addresses == addresses[..|addresses| - 1] + [addresses[|addresses| - 1]];
      Others(addresses[..|addresses| - 1], address)
      + (if addresses[|addresses| - 1] == address then [] else [addresses[|addresses| - 1]])
  }

  lemma {:induction false} OthersKeepOrder(h: seq<Event>, host: string, r: int, addresses: seq<string>, address: string)
    requires Distinct(addresses) && FirstSeenOrder(h, host, r, addresses)
    ensures Distinct(Others(addresses, address)) && FirstSeenOrder(h, host, r, Others(addresses, address))
    decreases |addresses|
  {
    hide FirstSeenOrder, Distinct;
    if addresses != [] {
      var front, last := addresses[..|addresses| - 1], addresses[|addresses| - 1];
      LastIsLast(h, host, r, front, last, addresses);
      OthersKeepOrder(h, host, r, front, address);
      LaterSeen(h, host, r, Others(front, address), last);
    }
  }

  /** Every permit of this address since `r` has, before it, one of each of those. */
  ghost predicate ComesAfter(h: seq<Event>, host: string, r: int, addresses: seq<string>, last: string) {
    forall a, k :: a in addresses && 0 <= k < |h| && r <= k && PermitOf(h[k], host) && h[k].address == last
      ==> PermittedSince(h[..k], host, r, a)
  }

  lemma LastIsLast(h: seq<Event>, host: string, r: int, front: seq<string>, last: string, all: seq<string>)
    requires all != [] && front == all[..|all| - 1] && last == all[|all| - 1]
    requires Distinct(all) && FirstSeenOrder(h, host, r, all)
    ensures Distinct(front) && FirstSeenOrder(h, host, r, front)
    ensures last !in front && ComesAfter(h, host, r, front, last)
  {
    hide PermitOf, PermittedSince;
    forall a | a in front
      ensures a != last && ComesAfter(h, host, r, [a], last)
    {
      var i :| 0 <= i < |front| && front[i] == a;
      assert all[i] == a;
    }
    assert forall a :: a in front ==> a in [a];
  }

  lemma LaterSeen(h: seq<Event>, host: string, r: int, addresses: seq<string>, last: string)
    requires Distinct(addresses) && FirstSeenOrder(h, host, r, addresses)
    requires last !in addresses && ComesAfter(h, host, r, addresses, last)
    ensures Distinct(addresses + [last]) && FirstSeenOrder(h, host, r, addresses + [last])
    ensures addresses + [] == addresses
  {
    hide PermitOf, PermittedSince;
    var all := addresses + [last];
    forall i, j, k | 0 <= i < j < |all| && 0 <= k < |h| && r <= k && PermitOf(h[k], host) && h[k].address == all[j]
      ensures PermittedSince(h[..k], host, r, all[i])
    {
      assert all[i] in addresses;
      if j < |addresses| {
        assert all[j] == addresses[j] && all[i] == addresses[i];
      }
    }
  }

  /** What a refusal of one address reports its host was also seen at: exactly the other addresses permitted
      since the host last became resident, each once, in the order first seen. */
  lemma AlsoSeenMeaning(h: seq<Event>, b: Bounds, host: string, address: string)
    requires LastPermit(h, host) >= 0
    ensures var r, out := LastArrival(h, b, host, |h|), Others(Addresses(h, b, host), address);
            && r >= 0 && Distinct(out) && FirstSeenOrder(h, host, r, out)
            && forall a :: a in out <==> PermittedSince(h, host, r, a) && a != address
  {
    hide FirstSeenOrder, Distinct, PermittedSince, LastArrival, Addresses, LastPermit;
    AddressesMeaning(h, b, host);
    OthersKeepOrder(h, host, LastArrival(h, b, host, |h|), Addresses(h, b, host), address);
  }

  /** What is passed on, in terms of the history alone. */
  function Forwarded(d: Decision, h: seq<Event>, b: Bounds, now: real): (out: Decision) {
    if d.stage.AtAddress? && d.host.Some? && !d.permitted && Remembered(h, b, now, d.host.value)
       && Others(Addresses(h, b, d.host.value), d.address) != []
    then d.(alsoSeen := Others(Addresses(h, b, d.host.value), d.address))
    else d
  }

  /** Some address other than the one refused was permitted for the host since it last became resident. */
  ghost predicate SeenElsewhere(h: seq<Event>, host: string, r: int, address: string) {
    exists a :: a != address && PermittedSince(h, host, r, a)
  }

  /** What `out` must be when `d` is passed on after `h`. Nothing but `also_seen` ever changes. A refusal of an
      address, for a host that is remembered and was permitted others since it last became resident, names
      exactly those others, each once and in the order first seen; every other decision passes as it came. */
  ghost predicate Reports(d: Decision, out: Decision, h: seq<Event>, b: Bounds, now: real) {
    && out == d.(alsoSeen := out.alsoSeen)
    && if d.stage.AtAddress? && d.host.Some? && !d.permitted && Remembered(h, b, now, d.host.value)
          && SeenElsewhere(h, d.host.value, LastArrival(h, b, d.host.value, |h|), d.address) then
         var r := LastArrival(h, b, d.host.value, |h|);
         && Distinct(out.alsoSeen) && FirstSeenOrder(h, d.host.value, r, out.alsoSeen)
         && forall a :: a in out.alsoSeen <==> PermittedSince(h, d.host.value, r, a) && a != d.address
       else out.alsoSeen == d.alsoSeen
  }

  lemma ForwardedReports(d: Decision, h: seq<Event>, b: Bounds, now: real)
    ensures Reports(d, Forwarded(d, h, b, now), h, b, now)
  {
    hide Remembered, Addresses, LastArrival, Distinct, FirstSeenOrder, PermittedSince, Others;
    if d.stage.AtAddress? && d.host.Some? && Remembered(h, b, now, d.host.value) {
      RememberedWasPermitted(h, b, now, d.host.value);
      AlsoSeenMeaning(h, b, d.host.value, d.address);
      var others := Others(Addresses(h, b, d.host.value), d.address);
      if others != [] {
        assert others[0] in others;
      }
    }
  }

  /** One permit is enough: a refusal of another address within the window names the one permitted. */
  lemma OneIsReported(d: Decision, out: Decision, good: string, b: Bounds, at: real, now: real)
    requires d.stage.AtAddress? && d.host.Some? && !d.permitted && d.address != good
    requires now - at <= b.window && b.capacity >= 1
    requires Reports(d, out, [Event(d.host.value, good, true, at)], b, now)
    ensures out == d.(alsoSeen := [good])
  {
    var h := [Event(d.host.value, good, true, at)];
    assert h[..0] == [];
    assert LastPermit(h, d.host.value) == 0 && OthersSince(h, 0, d.host.value) == {};
    assert Arrival(h, b, d.host.value, 0) by {
      assert LastPermit(h[..0], d.host.value) == -1;
    }
    assert PermittedSince(h, d.host.value, 0, good);
    hide Remembered, LastPermit, Arrival, LastArrival;
    assert good in out.alsoSeen;
    assert forall a :: a in out.alsoSeen ==> a == good;
    OnlyOne(out.alsoSeen, good);
  }

  lemma OnlyOne(addresses: seq<string>, good: string)
    requires Distinct(addresses) && good in addresses && forall a :: a in addresses ==> a == good
    ensures addresses == [good]
  {
    CountDistinct(addresses);
    assert (set a | a in addresses) == {good};
  }

  lemma {:induction false} CountDistinct(addresses: seq<string>)
    requires Distinct(addresses)
    ensures |set a | a in addresses| == |addresses|
  {
    if addresses != [] {
      var front, last := addresses[..|addresses| - 1], addresses[|addresses| - 1];
      CountDistinct(front);
      assert addresses == front + [last] && last !in front;
      assert (set a | a in addresses) == (set a | a in front) + {last};
    }
  }

  class RebindingWatch {
    const bounds: Bounds
    var seen: seq<Sighting>
    ghost var history: seq<Event>
    ghost var now: real

    ghost predicate Valid()
      reads this
    {
      bounds.capacity >= 1 && bounds.window > 0.0 && Agrees(seen, history, bounds, now)
    }

    constructor (window: real, capacity: nat)
      requires window > 0.0 && capacity >= 1
      ensures Valid() && history == [] && seen == [] && bounds == Bounds(window, capacity)
    {
      bounds := Bounds(window, capacity);
      seen, history, now := [], [], 0.0;
    }

    /** Every decision is passed on, enriched or as it was. Under a clock that does not run backwards the map stays the
        closed form of the history, and what is passed on reports what that history says. */
    method Call(d: Decision, clock: real) returns (forwarded: Decision)
      requires Valid() && (history == [] || now <= clock)
      modifies this
      ensures Valid()
      ensures d.stage.AtAddress? && d.host.Some? ==>
                && now == clock
                && history == old(history) + [Event(d.host.value, d.address, d.permitted, clock)]
                && (forall host :: host in Hosts(seen) <==> Remembered(history, bounds, clock, host))
                && Reports(d, forwarded, old(history), bounds, clock)
      ensures !(d.stage.AtAddress? && d.host.Some?) ==>
                forwarded == d && seen == old(seen) && history == old(history) && now == old(now)
    {
      hide Agrees, Forwarded, Remembered, Hosts, Reports;
      if !(d.stage.AtAddress? && d.host.Some?) {
        PassedOn(d, history, bounds, clock);
        return d;
      }
      ForwardedReports(d, history, bounds, clock);
      forwarded := Compare(d, clock);
      AgreesHosts(seen, history, bounds, clock);
    }

    method Compare(d: Decision, clock: real) returns (forwarded: Decision)
      requires Valid() && (history == [] || now <= clock)
      requires d.stage.AtAddress? && d.host.Some?
      modifies this
      ensures Valid() && now == clock
      ensures history == old(history) + [Event(d.host.value, d.address, d.permitted, clock)]
      ensures forwarded == Forwarded(d, old(history), bounds, clock)
    {
      hide Agrees, Newest, Moved;
      var host := d.host.value;
      Forget(clock);
      ghost var e := Event(host, d.address, d.permitted, clock);
      if d.permitted {
        PermitAgrees(seen, history, bounds, e);
        Remember(host, d.address, clock);
        history := history + [e];
        return d;
      }
      RefusalAgrees(seen, history, bounds, e);
      var sighting := Find(seen, host);
      AgreesFinds(seen, history, bounds, clock, host);
      history := history + [e];
      if sighting.None? {
        return d;
      }
      var others := Others(sighting.value.addresses, d.address);
      forwarded := if others == [] then d else d.(alsoSeen := others);
    }

    method Remember(host: string, address: string, clock: real)
      modifies this`seen
      ensures seen == Newest(Moved(old(seen), Event(host, address, true, clock)), bounds.capacity)
    {
      hide Find, Without;
      var sighting := Find(seen, host);
      seen := Without(seen, host);
      var addresses := if sighting.None? then [] else sighting.value.addresses;
      if address !in addresses {
        addresses := addresses + [address];
      }
      seen := seen + [Sighting(host, addresses, clock)];
      Evict();
    }

    method Evict()
      modifies this`seen
      ensures seen == Newest(old(seen), bounds.capacity)
    {
      ghost var d := 0;
      while |seen| > bounds.capacity
        invariant 0 <= d <= |old(seen)| && seen == old(seen)[d..]
        invariant d == 0 || |seen| >= bounds.capacity
        decreases |seen|
      {
        seen := seen[1..];
        d := d + 1;
      }
    }

    method Forget(clock: real)
      requires Valid() && (history == [] || now <= clock)
      modifies this`seen, this`now
      ensures Valid() && now == clock && seen == Fresh(old(seen), bounds, clock)
    {
      EmptyAgrees(seen, history, bounds, now);
      if history != [] {
        ForgetAgrees(seen, history, bounds, now, clock);
      }
      seen := Fresh(seen, bounds, clock);
      now := clock;
    }
  }

  lemma PassedOn(d: Decision, h: seq<Event>, b: Bounds, now: real)
    requires !(d.stage.AtAddress? && d.host.Some?)
    ensures Forwarded(d, h, b, now) == d
  {
  }

  /** Nothing permitted, nothing remembered: an empty history has an empty map at any time. */
  lemma EmptyAgrees(m: seq<Sighting>, h: seq<Event>, b: Bounds, now: real)
    requires Agrees(m, h, b, now)
    ensures m != [] ==> h != []
  {
    hide Addresses, OthersSince;
    if m != [] {
      assert m[0] in m;
    }
  }

  lemma AgreesHosts(m: seq<Sighting>, h: seq<Event>, b: Bounds, now: real)
    requires Agrees(m, h, b, now)
    ensures forall host :: host in Hosts(m) <==> Remembered(h, b, now, host)
  {
    hide Remembered, Addresses, LastPermit;
    forall host | host in Hosts(m)
      ensures Remembered(h, b, now, host)
    {
      var p := PositionOf(m, host);
      assert m[p] in m;
    }
  }

  lemma AgreesFinds(m: seq<Sighting>, h: seq<Event>, b: Bounds, now: real, host: string)
    requires Agrees(m, h, b, now)
    ensures Find(m, host).Some? <==> Remembered(h, b, now, host)
    ensures Find(m, host).Some? ==> Find(m, host).value.addresses == Addresses(h, b, host)
  {
    hide Remembered, Addresses, LastPermit;
    var found := Find(m, host);
    if found.Some? {
      assert Tells(found.value, h, b, now);
    }
  }
}

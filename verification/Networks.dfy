/** IP addresses and networks of both families as numbers. */
module Networks {
  import opened Wire

  datatype Version = Four | Six

  datatype Address = V4(value: nat) | V6(value: nat) {
    function Version(): (v: Version) { if V4? then Four else Six }
  }

  /** A network with no host bits: `base` is a multiple of its size. */
  datatype Network = Network(version: Version, base: nat, prefixLen: nat)

  function Width(v: Version): (w: nat) { if v == Four then 32 else 128 }

  function Pow2(n: nat): (p: nat)
    ensures p > 0
  {
    if n == 0 then 1 else 2 * Pow2(n - 1)
  }

  predicate ValidAddress(a: Address) { a.value < Pow2(Width(a.Version())) }

  predicate ValidNetwork(n: Network) {
    && n.prefixLen <= Width(n.version)
    && n.base % Size(n) == 0
    && n.base + Size(n) <= Pow2(Width(n.version))
  }

  /** How many addresses a network holds. */
  function Size(n: Network): (s: nat)
    ensures s > 0
  {
    if n.prefixLen <= Width(n.version) then Pow2(Width(n.version) - n.prefixLen) else 1
  }

  /** `address in network`: the families agree and the network bits of the address are the base. */
  predicate Contains(n: Network, a: Address) {
    n.version == a.Version() && a.value - a.value % Size(n) == n.base
  }

  /** `inner.subnet_of(outer)`, false across families. */
  predicate Inside(inner: Network, outer: Network) {
    && inner.version == outer.version
    && outer.base <= inner.base
    && inner.base + Size(inner) <= outer.base + Size(outer)
  }

  // ---------- arithmetic ----------

  lemma {:induction false} Pow2Monotone(a: nat, b: nat)
    requires a <= b
    ensures Pow2(a) <= Pow2(b) && Pow2(b) % Pow2(a) == 0
    decreases b - a
  {
    if a < b {
      Pow2Monotone(a + 1, b);
      DividesThrough(Pow2(a), Pow2(b));
    } else {
      assert Pow2(b) == Pow2(a);
    }
  }

  lemma DividesThrough(s: nat, t: nat)
    requires s > 0 && t % (2 * s) == 0
    ensures t % s == 0
  {
    var q := t / (2 * s);
    assert t == (2 * q) * s;
    MultipleModulo(2 * q, s);
  }

  /** A non-zero multiple of `s` is at least `s` away from zero. */
  lemma MultipleIsFar(d: int, s: nat)
    ensures d >= 1 ==> d * s >= s
    ensures d <= -1 ==> d * s + s <= 0
  {
    if d >= 1 {
      assert (d - 1) * s >= 0;
    } else if d <= -1 {
      assert (-d - 1) * s >= 0;
    }
  }

  lemma MultipleModulo(q: int, s: int)
    requires s > 0
    ensures (q * s) % s == 0
  {
    var x := q * s;
    assert x == (x / s) * s + x % s;
    assert (q - x / s) * s == q * s - (x / s) * s;
    MultipleIsFar(q - x / s, s);
  }

  /** Multiples of `s` that differ by less than `s` are in order. */
  lemma MultiplesInOrder(x: int, y: int, s: int)
    requires s > 0 && x % s == 0 && y % s == 0 && x < y + s
    ensures x <= y
  {
    var i, j := x / s, y / s;
    assert x == i * s && y == j * s;
    assert x - y == (i - j) * s;
    MultipleIsFar(i - j, s);
    assert i <= j;
    assert (j - i) * s >= 0;
  }

  /** A multiple of a multiple is a multiple. */
  lemma MultipleOfMultiple(x: int, t: int, s: int)
    requires s > 0 && t > 0 && x % t == 0 && t % s == 0
    ensures x % s == 0
  {
    var i, j := x / t, t / s;
    assert x == i * t && t == j * s;
    assert x == (i * j) * s;
    MultipleModulo(i * j, s);
  }

  /** Membership is the interval from the base. */
  lemma ContainsInterval(n: Network, a: Address)
    requires ValidNetwork(n)
    ensures Contains(n, a) <==> n.version == a.Version() && n.base <= a.value < n.base + Size(n)
  {
    var s := Size(n);
    var floor := a.value - a.value % s;
    FloorIsMultiple(a.value, s);
    if n.base <= a.value < n.base + s {
      MultiplesInOrder(floor, n.base, s);
      MultiplesInOrder(n.base, floor, s);
    }
  }

  lemma FloorIsMultiple(x: nat, s: nat)
    requires s > 0
    ensures (x - x % s) % s == 0
  {
    assert x - x % s == (x / s) * s;
    MultipleModulo(x / s, s);
  }

  /** The longer-prefix network divides the other, so sharing one address nests it inside. */
  lemma Nested(inner: Network, outer: Network, a: Address)
    requires ValidNetwork(inner) && ValidNetwork(outer)
    requires Contains(inner, a) && Contains(outer, a) && outer.prefixLen <= inner.prefixLen
    ensures Inside(inner, outer)
    ensures inner.prefixLen == outer.prefixLen ==> inner == outer
  {
    hide Contains, Size, Pow2;
    ContainsInterval(inner, a);
    ContainsInterval(outer, a);
    SizesDivide(inner, outer);
    IntervalsNest(inner.base, Size(inner), outer.base, Size(outer), a.value);
  }

  lemma SizesDivide(inner: Network, outer: Network)
    requires ValidNetwork(inner) && ValidNetwork(outer)
    requires inner.version == outer.version && outer.prefixLen <= inner.prefixLen
    ensures Size(outer) % Size(inner) == 0
    ensures inner.prefixLen == outer.prefixLen ==> Size(inner) == Size(outer)
  {
    var w := Width(inner.version);
    Pow2Monotone(w - inner.prefixLen, w - outer.prefixLen);
  }

  /** Aligned intervals that share a point, one size a multiple of the other, are nested. */
  lemma IntervalsNest(inner: nat, s: nat, outer: nat, t: nat, v: nat)
    requires s > 0 && t > 0 && t % s == 0 && inner % s == 0 && outer % t == 0
    requires inner <= v < inner + s && outer <= v < outer + t
    ensures outer <= inner && inner + s <= outer + t
  {
    MultipleOfMultiple(outer, t, s);
    SumOfMultiples(outer, t, s);
    SumOfMultiples(inner, s, s);
    MultiplesInOrder(outer, inner, s);
    MultiplesInOrder(inner + s, outer + t, s);
  }

  lemma SumOfMultiples(x: int, y: int, s: int)
    requires s > 0 && x % s == 0 && y % s == 0
    ensures (x + y) % s == 0
  {
    assert x + y == (x / s + y / s) * s;
    MultipleModulo(x / s + y / s, s);
  }

  /** Being inside means every address is. */
  lemma InsideContains(inner: Network, outer: Network, a: Address)
    requires ValidNetwork(inner) && ValidNetwork(outer)
    requires Inside(inner, outer) && Contains(inner, a)
    ensures Contains(outer, a)
  {
    ContainsInterval(inner, a);
    ContainsInterval(outer, a);
  }

  /** A network inside another has at least as long a prefix, and the same prefix only if it is the other. */
  lemma {:induction false} InsideIsLonger(inner: Network, outer: Network)
    requires ValidNetwork(inner) && ValidNetwork(outer) && Inside(inner, outer)
    ensures outer.prefixLen <= inner.prefixLen
    ensures inner.prefixLen == outer.prefixLen ==> inner == outer
  {
    if inner.prefixLen < outer.prefixLen {
      var w := Width(inner.version);
      Pow2Monotone(w - outer.prefixLen + 1, w - inner.prefixLen);
    }
  }

  /** The lowest address of a network. */
  function First(n: Network): (a: Address) {
    if n.version == Four then V4(n.base) else V6(n.base)
  }

  lemma FirstInside(n: Network)
    requires ValidNetwork(n)
    ensures Contains(n, First(n)) && ValidAddress(First(n))
  {
    ContainsInterval(n, First(n));
  }

  // ---------- packed addresses ----------

  lemma Pow2Byte(n: nat)
    ensures Pow2(n + 8) == 0x100 * Pow2(n)
  {
    assert Pow2(n + 2) == 4 * Pow2(n);
    assert Pow2(n + 4) == 4 * Pow2(n + 2);
    assert Pow2(n + 6) == 4 * Pow2(n + 4);
  }

  /** The low `8 n` bits of a number, most significant byte first. */
  function Pack(v: nat, n: nat): (raw: seq<byte>)
    ensures |raw| == n
  {
    if n == 0 then [] else Pack(v / 0x100, n - 1) + [v % 0x100]
  }

  lemma {:induction false} NumberOfPack(v: nat, n: nat)
    requires v < Pow2(8 * n)
    ensures Number(Pack(v, n)) == v
  {
    if n > 0 {
      Pow2Byte(8 * (n - 1));
      NumberOfPack(v / 0x100, n - 1);
      assert Pack(v, n)[..n - 1] == Pack(v / 0x100, n - 1);
    }
  }

  lemma {:induction false} NumberBound(raw: seq<byte>)
    ensures Number(raw) < Pow2(8 * |raw|)
  {
    if raw != [] {
      var n := |raw|;
      Pow2Byte(8 * (n - 1));
      NumberBound(raw[..n - 1]);
    }
  }

  /** `address.packed` */
  function Packed(a: Address): (raw: seq<byte>) {
    if a.V4? then Pack(a.value, 4) else Pack(a.value, 16)
  }
}

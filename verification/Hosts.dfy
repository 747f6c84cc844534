/** Hosts: what a policy accepts as a name, the host allowlist by labels, and the fit with the resolver. */
module Hosts {
  import opened Wire
  import opened Names
  import opened Networks

  const LONGEST_HOSTNAME := 253

  /** What the host of a URL turned out to be. */
  datatype HostCheck = Refused | Literal(host: string, address: Address) | Name(host: string)

  // ---------- literal addresses ----------

  predicate IsDigit(c: char) { '0' <= c <= '9' }

  predicate AllDigits(s: string) {
    forall i :: 0 <= i < |s| ==> IsDigit(s[i])
  }

  function Decimal(s: string): (v: nat)
    requires AllDigits(s)
  {
    if s == "" then 0 else Decimal(s[..|s| - 1]) * 10 + (s[|s| - 1] as int - '0' as int)
  }

  /** One part of a dotted quad: one to three digits, no leading zero, at most 255. */
  function Octet(s: string): (v: Option<nat>) {
    if s == "" || !AllDigits(s) || |s| > 3 || (s != "0" && s[0] == '0') || Decimal(s) > 255 then None
    else Some(Decimal(s))
  }

  function ParseV4(s: string): (v: Option<nat>) {
    var parts := Split(s);
    if |parts| != 4 || exists i :: 0 <= i < 4 && Octet(parts[i]).None? then None
    else
      Some(((Octet(parts[0]).value * 0x100 + Octet(parts[1]).value) * 0x100
            + Octet(parts[2]).value) * 0x100 + Octet(parts[3]).value)
  }

  function Digit(d: nat): (c: char)
    requires d < 10
  {
    ('0' as int + d) as char
  }

  function ShowOctet(v: nat): (s: string)
    requires v < 256
  {
    if v < 10 then [Digit(v)]
    else if v < 100 then [Digit(v / 10), Digit(v % 10)]
    else [Digit(v / 100), Digit(v / 10 % 10), Digit(v % 10)]
  }

  /** `str(IPv4Address(v))` */
  function ShowV4(v: nat): (s: string)
    requires v < 0x1_0000_0000
  {
    Join([ShowOctet(v / 0x100_0000), ShowOctet(v / 0x1_0000 % 0x100),
          ShowOctet(v / 0x100 % 0x100), ShowOctet(v % 0x100)])
  }

  lemma OctetBack(v: nat)
    requires v < 256
    ensures Octet(ShowOctet(v)) == Some(v) && '.' !in ShowOctet(v)
  {
    hide Octet, ShowOctet;
    if v < 10 {
      ShowOne(v);
    } else if v < 100 {
      ShowTwo(v);
    } else {
      ShowThree(v);
    }
    OctetFrom(ShowOctet(v), v);
  }

  /** These digits spell the number, and the first is not a zero unless it is alone. */
  predicate Spells(s: string, v: nat) {
    AllDigits(s) && 1 <= |s| <= 3 && (|s| == 1 || s[0] != '0') && Decimal(s) == v
  }

  lemma ShowOne(v: nat)
    requires v < 10
    ensures Spells(ShowOctet(v), v)
  {
    hide Decimal, Digit, AllDigits;
    OneDigit(v);
  }

  lemma ShowTwo(v: nat)
    requires 10 <= v < 100
    ensures Spells(ShowOctet(v), v)
  {
    hide Decimal, Digit, AllDigits;
    OneDigit(v / 10);
    OneMoreDigit([Digit(v / 10)], v % 10);
    assert [Digit(v / 10)] + [Digit(v % 10)] == ShowOctet(v);
  }

  lemma ShowThree(v: nat)
    requires 100 <= v < 256
    ensures Spells(ShowOctet(v), v)
  {
    hide Decimal, Digit, AllDigits;
    var x, y, z := v / 100, v / 10 % 10, v % 10;
    OneDigit(x);
    OneMoreDigit([Digit(x)], y);
    OneMoreDigit([Digit(x)] + [Digit(y)], z);
    assert [Digit(x)] + [Digit(y)] + [Digit(z)] == ShowOctet(v);
  }

  /** Digits without a leading zero are the number they spell. */
  lemma OctetFrom(s: string, v: nat)
    requires Spells(s, v) && v < 256
    ensures Octet(s) == Some(v) && '.' !in s
  {
    hide Decimal;
  }

  lemma OneDigit(d: nat)
    requires d < 10
    ensures AllDigits([Digit(d)]) && Decimal([Digit(d)]) == d && (d > 0 ==> Digit(d) != '0')
  {
    NoDigits();
    OneMoreDigit([], d);
    assert [] + [Digit(d)] == [Digit(d)];
  }

  lemma NoDigits()
    ensures Decimal("") == 0
  {
  }

  lemma OneMoreDigit(s: string, d: nat)
    requires AllDigits(s) && d < 10
    ensures AllDigits(s + [Digit(d)]) && Decimal(s + [Digit(d)]) == Decimal(s) * 10 + d
    ensures d > 0 ==> Digit(d) != '0'
  {
    assert (s + [Digit(d)])[..|s|] == s;
  }

  /** Every IPv4 address reads back from its dotted form. */
  lemma V4TextRoundTrip(v: nat)
    requires v < 0x1_0000_0000
    ensures ParseV4(ShowV4(v)) == Some(v)
  {
    hide Octet, ShowOctet, Split, Join, ParseV4, ShowV4;
    var a, b, c, d := v / 0x100_0000, v / 0x1_0000 % 0x100, v / 0x100 % 0x100, v % 0x100;
    QuadsBack(v, a, b, c, d);
    FromQuads(ShowV4(v), a, b, c, d);
    QuadsValue(v);
  }

  lemma QuadsValue(v: nat)
    ensures v == ((v / 0x100_0000 * 0x100 + v / 0x1_0000 % 0x100) * 0x100 + v / 0x100 % 0x100) * 0x100 + v % 0x100
  {
    var t, u, w := v / 0x100_0000, v / 0x1_0000, v / 0x100;
    ByteOff(v, w);
    ByteOff(w, u);
    ByteOff(u, t);
  }

  /** A number without its last byte. */
  lemma ByteOff(x: nat, q: nat)
    requires q * 0x100 <= x < q * 0x100 + 0x100
    ensures x == q * 0x100 + x % 0x100
  {
  }

  lemma QuadsBack(v: nat, a: nat, b: nat, c: nat, d: nat)
    requires v < 0x1_0000_0000
    requires a == v / 0x100_0000 && b == v / 0x1_0000 % 0x100 && c == v / 0x100 % 0x100 && d == v % 0x100
    ensures a < 256 && Split(ShowV4(v)) == [ShowOctet(a), ShowOctet(b), ShowOctet(c), ShowOctet(d)]
    ensures Octet(ShowOctet(a)) == Some(a) && Octet(ShowOctet(b)) == Some(b)
    ensures Octet(ShowOctet(c)) == Some(c) && Octet(ShowOctet(d)) == Some(d)
  {
    hide Octet, ShowOctet, Split, Join;
    OctetBack(a);
    OctetBack(b);
    OctetBack(c);
    OctetBack(d);
    SplitOfJoin([ShowOctet(a), ShowOctet(b), ShowOctet(c), ShowOctet(d)]);
  }

  lemma FromQuads(s: string, a: nat, b: nat, c: nat, d: nat)
    requires |Split(s)| == 4 && Octet(Split(s)[0]) == Some(a) && Octet(Split(s)[1]) == Some(b)
    requires Octet(Split(s)[2]) == Some(c) && Octet(Split(s)[3]) == Some(d)
    ensures ParseV4(s) == Some(((a * 0x100 + b) * 0x100 + c) * 0x100 + d)
  {
    hide Octet, Split;
  }

  /** `ipaddress.ip_address` on text: a dotted quad, or something with a colon that `v6` can read. */
  function IpAddress(s: string, v6: string -> Option<nat>): (a: Option<Address>) {
    if ParseV4(s).Some? then Some(V4(ParseV4(s).value))
    else if ':' in s && v6(s).Some? then Some(V6(v6(s).value))
    else None
  }

  /** The host is made only of digits and dots. */
  predicate NumericShaped(s: string) {
    s != "" && forall i :: 0 <= i < |s| ==> IsDigit(s[i]) || s[i] == '.'
  }

  lemma {:induction false} DigitsBetweenDots(s: string)
    requires forall part :: part in Split(s) ==> AllDigits(part)
    ensures forall i :: 0 <= i < |s| ==> IsDigit(s[i]) || s[i] == '.'
  {
    if '.' !in s {
      assert s in Split(s);
    } else {
      var head, rest := s[..FirstDot(s)], s[FirstDot(s) + 1..];
      assert Split(s) == [head] + Split(rest);
      assert head in Split(s);
      DigitsBetweenDots(rest);
      assert s == head + "." + rest;
    }
  }

  /** The cheap test agrees with always parsing: whatever parses as an address is made of digits and
      dots or holds a colon. */
  lemma CheapTestAgrees(s: string, v6: string -> Option<nat>)
    requires IpAddress(s, v6).Some?
    ensures NumericShaped(s) || ':' in s
  {
    hide Octet;
    if ParseV4(s).Some? {
      var parts := Split(s);
      assert |parts| == 4;
      forall part | part in parts
        ensures AllDigits(part)
      {
        var i :| 0 <= i < |parts| && parts[i] == part;
        assert Octet(parts[i]).Some?;
        OctetDigits(part);
      }
      DigitsBetweenDots(s);
      assert s != "" by {
        assert |Split("")| == 1;
      }
    }
  }

  lemma OctetDigits(s: string)
    requires Octet(s).Some?
    ensures AllDigits(s)
  {
  }

  // ---------- hostnames ----------

  predicate LetterOrDigit(c: char) {
    'a' <= c <= 'z' || 'A' <= c <= 'Z' || IsDigit(c)
  }

  predicate HostChars(s: string) {
    1 <= |s| <= 63 && forall i :: 0 <= i < |s| ==> LetterOrDigit(s[i]) || s[i] == '-'
  }

  /** A label before a dot: it neither starts nor ends with a hyphen. */
  predicate InnerLabel(s: string) {
    HostChars(s) && LetterOrDigit(s[0]) && LetterOrDigit(s[|s| - 1])
  }

  /** The hostname pattern: inner labels each followed by a dot, a final label, an optional dot. */
  predicate MatchesHostname(h: string) {
    || HostChars(h)
    || (h != "" && h[|h| - 1] == '.' && HostChars(h[..|h| - 1]))
    || ('.' in h && InnerLabel(h[..FirstDot(h)]) && MatchesHostname(h[FirstDot(h) + 1..]))
  }

  /** ASCII is lowered; anything else goes through the `idna` codec, which may refuse it. */
  function Normalise(host: string, idna: string -> Option<string>): (out: Option<string>) {
    if IsAscii(host) then Some(Lower(host))
    else if idna(host).None? then None
    else Some(Lower(idna(host).value))
  }

  function CheckHost(raw: string, idna: string -> Option<string>, v6: string -> Option<nat>): (r: HostCheck) {
    if raw == "" || '%' in raw || |raw| > LONGEST_HOSTNAME then Refused
    else
      match Normalise(raw, idna)
      case None => Refused
      case Some(host) =>
        var address := if NumericShaped(host) || ':' in host then IpAddress(host, v6) else None;
        if address.Some? then Literal(host, address.value)
        else if NumericShaped(host) then Refused
        else if !MatchesHostname(host) then Refused
        else Name(host)
  }

  // ---------- names the resolver can ask about ----------

  lemma {:induction false} StripTail(x: string, y: string)
    requires StripDots(y) != ""
    ensures StripDots(x + y) == x + StripDots(y)
    decreases |y|
  {
    var s := x + y;
    if y[|y| - 1] == '.' {
      assert s[..|s| - 1] == x + y[..|y| - 1];
      StripTail(x, y[..|y| - 1]);
    }
  }

  lemma LabelIsClean(s: string)
    requires HostChars(s)
    ensures IsLabel(s) && '.' !in s && StripDots(s) == s && StripDots(s + ".") == s
  {
    assert (s + ".")[..|s|] == s;
  }

  lemma LabelsBeforeDot(head: string, rest: string)
    requires HostChars(head) && StripDots(rest) != "" && AreLabels(Split(StripDots(rest)))
    ensures StripDots(head + "." + rest) != "" && AreLabels(Split(StripDots(head + "." + rest)))
  {
    hide Split, StripDots, HostChars, IsLabel;
    LabelIsClean(head);
    StripTail(head + ".", rest);
    SplitCons(head, StripDots(rest));
  }

  /** A text the pattern accepts is labels of one to 63 ASCII characters. */
  lemma {:induction false} HostnameLabels(h: string)
    requires MatchesHostname(h)
    ensures StripDots(h) != "" && AreLabels(Split(StripDots(h)))
  {
    hide HostChars, StripDots, AreLabels;
    if HostChars(h) {
      OneLabel(h);
    } else if h != "" && h[|h| - 1] == '.' && HostChars(h[..|h| - 1]) {
      var front := h[..|h| - 1];
      OneLabel(front);
      assert h == front + ".";
    } else {
      var head, rest := h[..FirstDot(h)], h[FirstDot(h) + 1..];
      HostnameLabels(rest);
      LabelsBeforeDot(head, rest);
      assert h == head + "." + rest;
    }
  }

  lemma OneLabel(s: string)
    requires HostChars(s)
    ensures StripDots(s) == s && StripDots(s + ".") == s && s != "" && AreLabels(Split(s))
  {
    LabelIsClean(s);
  }

  lemma {:induction false} LabelBytesOfJoin(labels: seq<string>)
    requires labels != []
    ensures LabelBytes(labels) == |Join(labels)| + 1
  {
    if |labels| > 1 {
      LabelBytesOfJoin(labels[1..]);
    } else {
      assert LabelBytes(labels[1..]) == 0;
    }
  }

  /** Policy and resolver fit exactly: every ASCII host accepted as a name can be put on the wire, in at
      most 255 bytes, and reading those bytes back out of any message gives the name without its dot. */
  lemma NamesAreAskable(raw: string, idna: string -> Option<string>, v6: string -> Option<nat>,
                        before: seq<byte>, behind: seq<byte>)
    requires IsAscii(raw) && CheckHost(raw, idna, v6).Name?
    ensures var host := CheckHost(raw, idna, v6).host;
            && Encode(host).Some?
            && |Encode(host).value| == |StripDots(host)| + 2 <= MAX_NAME_BYTES
            && Decode(before + Encode(host).value + behind, |before|)
               == Some(Decoded(StripDots(host), |before| + |Encode(host).value|))
  {
    hide Decode, Encode, MatchesHostname, IpAddress, NumericShaped, StripDots;
    var host := CheckHost(raw, idna, v6).host;
    HostnameLabels(host);
    AskableLabels(host);
    EncodeThenDecode(host, before, behind);
  }

  lemma AskableLabels(host: string)
    requires StripDots(host) != "" && AreLabels(Split(StripDots(host))) && |host| <= LONGEST_HOSTNAME
    ensures Encode(host).Some? && |Encode(host).value| == |StripDots(host)| + 2 <= MAX_NAME_BYTES
  {
    hide Split, AreLabels, StripDots, LabelBytes;
    LabelBytesOfJoin(Split(StripDots(host)));
    JoinOfSplit(StripDots(host));
  }

  // ---------- the allowlist ----------

  predicate IsWildcard(pattern: string) {
    |pattern| >= 2 && pattern[0] == '*' && pattern[1] == '.'
  }

  predicate EndsWith(s: string, suffix: string) {
    |suffix| <= |s| && s[|s| - |suffix|..] == suffix
  }

  /** The string test on one pattern; for a wildcard the suffix keeps its leading dot. */
  predicate PatternAllows(name: string, pattern: string, literal: bool) {
    if literal then name == pattern
    else if IsWildcard(pattern) then EndsWith(name, pattern[1..]) && |name| > |pattern[1..]|
    else name == pattern
  }

  predicate HostIsAllowed(host: string, patterns: set<string>, literal: bool) {
    exists p :: p in patterns && PatternAllows(StripDots(host), p, literal)
  }

  /** The wanted labels stand last, and before them is something other than an empty label. */
  predicate LabelsLast(labels: seq<string>, wanted: seq<string>) {
    var k := |labels| - |wanted|;
    k >= 1 && labels[k..] == wanted && labels[..k] != [""]
  }

  /** The same test on labels: a wildcard wants its own labels last and something before them. */
  predicate LabelsAllow(labels: seq<string>, pattern: string, literal: bool) {
    if !literal && IsWildcard(pattern) then
      LabelsLast(labels, Split(pattern[2..]))
    else labels == Split(pattern)
  }

  lemma SameTextSameLabels(s: string, t: string)
    ensures Split(s) == Split(t) <==> s == t
  {
    JoinOfSplit(s);
    JoinOfSplit(t);
  }

  lemma {:induction false} JoinOfBoth(front: seq<string>, back: seq<string>)
    requires front != [] && back != []
    ensures Join(front + back) == Join(front) + "." + Join(back)
  {
    hide Join;
    var head, tail := front[0], front[1..];
    assert front == [head] + tail;
    if tail == [] {
      assert front == [head] && front + back == [head] + back;
      JoinCons(head, back);
      JoinOne(head);
    } else {
      assert front + back == [head] + (tail + back);
      JoinOfBoth(tail, back);
      JoinCons(head, tail + back);
      JoinCons(head, tail);
      var t, b := Join(tail), Join(back);
      assert head + "." + (t + "." + b) == head + "." + t + "." + b;
    }
  }

  lemma JoinOne(part: string)
    ensures Join([part]) == part
  {
  }

  lemma JoinNotEmpty(front: seq<string>)
    requires front != [] && front != [""]
    ensures Join(front) != ""
  {
    if |front| == 1 {
      assert front == [front[0]];
    }
  }

  /** Matching on the string is matching on label boundaries. */
  lemma PatternMeaning(name: string, pattern: string, literal: bool)
    ensures PatternAllows(name, pattern, literal) <==> LabelsAllow(Split(name), pattern, literal)
  {
    if !literal && IsWildcard(pattern) {
      hide LabelsLast;
      assert pattern[1..] == "." + pattern[2..];
      WildcardMeaning(name, pattern[2..]);
    } else {
      SameTextSameLabels(name, pattern);
    }
  }

  lemma WildcardMeaning(name: string, rest: string)
    ensures EndsWith(name, "." + rest) && |name| > 1 + |rest| <==> LabelsLast(Split(name), Split(rest))
  {
    hide Split, EndsWith;
    if EndsWith(name, "." + rest) && |name| > 1 + |rest| {
      hide LabelsLast;
      WildcardSplits(name, rest);
    } else if LabelsLast(Split(name), Split(rest)) {
      var k := |Split(name)| - |Split(rest)|;
      assert Split(name) == Split(name)[..k] + Split(name)[k..];
      WildcardJoins(name, Split(name)[..k], rest);
    }
  }

  lemma WildcardSplits(name: string, rest: string)
    requires EndsWith(name, "." + rest) && |name| > 1 + |rest|
    ensures LabelsLast(Split(name), Split(rest))
  {
    hide Split;
    var x := name[..|name| - 1 - |rest|];
    BeforeSuffix(name, rest);
    SplitAtDot(x, rest);
    JoinOfSplit(x);
    LastOfTwo(Split(x), Split(rest));
    if Split(x) == [""] {
      JoinOne("");
    }
  }

  lemma BeforeSuffix(name: string, rest: string)
    requires EndsWith(name, "." + rest) && |name| > 1 + |rest|
    ensures var x := name[..|name| - 1 - |rest|]; x != "" && name == x + "." + rest
  {
    var x := name[..|name| - 1 - |rest|];
    assert name == x + ("." + rest) == x + "." + rest;
  }

  lemma LastOfTwo(front: seq<string>, back: seq<string>)
    requires front != [] && front != [""]
    ensures LabelsLast(front + back, back)
  {
    var all := front + back;
    assert all[|front|..] == back && all[..|front|] == front;
  }

  lemma EndsWithSuffix(x: string, suffix: string)
    ensures EndsWith(x + suffix, suffix)
  {
  }

  lemma WildcardJoins(name: string, front: seq<string>, rest: string)
    requires front != [] && front != [""] && Split(name) == front + Split(rest)
    ensures EndsWith(name, "." + rest) && |name| > 1 + |rest|
  {
    hide Split, Join, EndsWith;
    JoinOfBoth(front, Split(rest));
    JoinOfSplit(name);
    JoinOfSplit(rest);
    JoinNotEmpty(front);
    SuffixAfter(Join(front), rest);
  }

  lemma SuffixAfter(x: string, rest: string)
    requires x != ""
    ensures EndsWith(x + "." + rest, "." + rest) && |x + "." + rest| > 1 + |rest|
  {
    assert x + "." + rest == x + ("." + rest);
    EndsWithSuffix(x, "." + rest);
  }

  /** A host is allowed exactly when its labels, trailing dots aside, are some pattern's labels, or end
      with a wildcard's labels with something before them; a literal only by being listed. */
  lemma AllowlistMeaning(host: string, patterns: set<string>, literal: bool)
    ensures HostIsAllowed(host, patterns, literal) <==>
            exists p :: p in patterns && LabelsAllow(Split(StripDots(host)), p, literal)
  {
    hide PatternAllows, LabelsAllow;
    forall p | p in patterns
      ensures PatternAllows(StripDots(host), p, literal) <==> LabelsAllow(Split(StripDots(host)), p, literal)
    {
      PatternMeaning(StripDots(host), p, literal);
    }
  }

  lemma TrailingDotIgnored(host: string, patterns: set<string>, literal: bool)
    ensures HostIsAllowed(host + ".", patterns, literal) == HostIsAllowed(host, patterns, literal)
  {
    assert (host + ".")[..|host|] == host;
  }

  /** The allowlist step of `check_url`, on what `_check_host` returned. */
  predicate UrlStepAllows(r: HostCheck, patterns: set<string>)
    requires !r.Refused?
  {
    patterns == {} || HostIsAllowed(r.host, patterns, r.Literal?)
  }

  /** `check_host`, at a seam that holds only the host. */
  predicate SeamAllows(host: string, patterns: set<string>, v6: string -> Option<nat>) {
    patterns == {} || HostIsAllowed(host, patterns, IpAddress(host, v6).Some?)
  }

  /** The URL layer and the seam agree on every host the URL layer accepts. */
  lemma SeamAgrees(raw: string, idna: string -> Option<string>, v6: string -> Option<nat>, patterns: set<string>)
    requires !CheckHost(raw, idna, v6).Refused?
    ensures var r := CheckHost(raw, idna, v6);
            UrlStepAllows(r, patterns) == SeamAllows(r.host, patterns, v6)
  {
    hide IpAddress, HostIsAllowed, MatchesHostname;
    var host := CheckHost(raw, idna, v6).host;
    if IpAddress(host, v6).Some? {
      CheapTestAgrees(host, v6);
    }
  }

  // ---------- patterns as configured ----------

  predicate IsSpace(c: char) {
    c == ' ' || 9 as char <= c <= 13 as char || 28 as char <= c <= 31 as char
  }

  /** `str.strip` on ASCII text. */
  function Trim(s: string): (r: string)
    ensures r == "" || (!IsSpace(r[0]) && !IsSpace(r[|r| - 1]))
  {
    if s == "" then ""
    else if IsSpace(s[0]) then Trim(s[1..])
    else if IsSpace(s[|s| - 1]) then Trim(s[..|s| - 1])
    else s
  }

  /** One allowlist entry made comparable: trimmed, undotted, normalised; refused when it is empty,
      would match every host, or has a `*` that is not the whole leftmost label. */
  function AsPattern(pattern: string, idna: string -> Option<string>): (out: Option<string>) {
    var entry := StripDots(Trim(pattern));
    var rest := if '.' in entry then entry[FirstDot(entry) + 1..] else "";
    PatternFrom(entry, Split(entry)[0], rest, idna)
  }

  /** An entry, by its leftmost label and the rest behind the first dot. */
  function PatternFrom(entry: string, leftmost: string, rest: string, idna: string -> Option<string>)
    : (out: Option<string>)
  {
    if entry == "" || '*' in rest || ('*' in leftmost && leftmost != "*") then None
    else if leftmost == "*" then
      if rest == "" || Normalise(rest, idna).None? then None else Some("*." + Normalise(rest, idna).value)
    else Normalise(entry, idna)
  }

  /** Every accepted ASCII entry is one a host can match: a wildcard over a non-empty, star-free base,
      or a star-free name. */
  lemma PatternsAreUsable(pattern: string, idna: string -> Option<string>)
    requires IsAscii(pattern) && AsPattern(pattern, idna).Some?
    ensures var p := AsPattern(pattern, idna).value;
            if IsWildcard(p) then |p| > 2 && '*' !in p[2..] else p != "" && '*' !in p
  {
    hide Trim, StripDots, Split, FirstDot, IsAscii, IsWildcard, PatternFrom;
    var entry := StripDots(Trim(pattern));
    TrimIsAscii(pattern);
    AsciiPart(Trim(pattern), entry, 0);
    if '.' in entry {
      var rest := entry[FirstDot(entry) + 1..];
      AsciiPart(entry, rest, FirstDot(entry) + 1);
      StarBeforeDot(entry);
      PatternFromUsable(entry, Split(entry)[0], rest, idna);
    } else {
      NoSplit(entry);
      AsciiPart(entry, "", 0);
      PatternFromUsable(entry, entry, "", idna);
    }
  }

  lemma PatternFromUsable(entry: string, leftmost: string, rest: string, idna: string -> Option<string>)
    requires IsAscii(entry) && IsAscii(rest) && PatternFrom(entry, leftmost, rest, idna).Some?
    requires '*' in entry <==> '*' in leftmost || '*' in rest
    ensures var p := PatternFrom(entry, leftmost, rest, idna).value;
            if IsWildcard(p) then |p| > 2 && '*' !in p[2..] else p != "" && '*' !in p
  {
    hide Normalise, IsAscii, IsWildcard;
    if leftmost == "*" {
      NormaliseStars(rest, idna);
      WildcardOver(Normalise(rest, idna).value);
    } else {
      NormaliseStars(entry, idna);
      StarFree(Normalise(entry, idna).value);
    }
  }

  lemma StarFree(p: string)
    ensures '*' !in p ==> !IsWildcard(p)
  {
  }

  lemma WildcardOver(base: string)
    ensures IsWildcard("*." + base) && ("*." + base)[2..] == base
  {
  }

  lemma AsciiPart(s: string, part: string, from: nat)
    requires IsAscii(s) && from <= |s| && part <= s[from..]
    ensures IsAscii(part)
  {
    forall i | 0 <= i < |part|
      ensures part[i] < 128 as char
    {
      assert part[i] == s[from + i];
    }
  }

  lemma NormaliseStars(s: string, idna: string -> Option<string>)
    requires IsAscii(s)
    ensures Normalise(s, idna).Some? && |Normalise(s, idna).value| == |s|
    ensures '*' in Normalise(s, idna).value <==> '*' in s
  {
    LowerStars(s);
  }

  lemma StarBeforeDot(s: string)
    requires '.' in s
    ensures '*' in s <==> '*' in Split(s)[0] || '*' in s[FirstDot(s) + 1..]
  {
    hide Split, FirstDot;
    var head, rest := s[..FirstDot(s)], s[FirstDot(s) + 1..];
    AtFirstDot(s);
    SplitCons(head, rest);
    StarInEither(head, rest);
  }

  lemma StarInEither(x: string, y: string)
    ensures '*' in x + "." + y <==> '*' in x || '*' in y
  {
  }

  lemma {:induction false} TrimIsAscii(s: string)
    requires IsAscii(s)
    ensures IsAscii(Trim(s))
    decreases |s|
  {
    if s != "" && IsSpace(s[0]) {
      TrimIsAscii(s[1..]);
    } else if s != "" && IsSpace(s[|s| - 1]) {
      TrimIsAscii(s[..|s| - 1]);
    }
  }

  lemma LowerStars(s: string)
    ensures '*' in Lower(s) <==> '*' in s
  {
    if '*' in s {
      var i :| 0 <= i < |s| && s[i] == '*';
      assert Lower(s)[i] == '*';
    }
  }
}

/** What the host checks come to, read off the characters: which hosts are literals, which are names, which are
    refused, and which allowlist entries are taken. */
module HostChecks {
  import opened Wire
  import opened Names
  import opened Networks
  import opened Hosts

  // ---------- dotted quads ----------

  lemma DecimalOne(s: string)
    requires AllDigits(s) && |s| == 1
    ensures Decimal(s) == s[0] as int - '0' as int
  {
    assert s[..0] == "";
    NoDigits();
  }

  lemma DecimalMore(s: string)
    requires AllDigits(s) && s != ""
    ensures AllDigits(s[..|s| - 1]) && Decimal(s) == Decimal(s[..|s| - 1]) * 10 + (s[|s| - 1] as int - '0' as int)
  {
  }

  lemma DigitOf(c: char)
    requires IsDigit(c)
    ensures 0 <= c as int - '0' as int < 10 && Digit(c as int - '0' as int) == c
  {
  }

  /** A part that is read as a number is that number's own text: no zero leads it. */
  lemma OctetShown(s: string)
    requires Octet(s).Some?
    ensures Octet(s).value < 256 && s == ShowOctet(Octet(s).value)
  {
    hide Decimal, Digit;
    var v := Octet(s).value;
    DigitOf(s[0]);
    if |s| == 1 {
      DecimalOne(s);
    } else if |s| == 2 {
      DigitOf(s[1]);
      DecimalMore(s);
      DecimalOne(s[..1]);
      assert v / 10 == s[0] as int - '0' as int && v % 10 == s[1] as int - '0' as int;
    } else {
      DigitOf(s[1]);
      DigitOf(s[2]);
      DecimalMore(s);
      DecimalMore(s[..2]);
      assert s[..2][..1] == s[..1];
      DecimalOne(s[..1]);
      assert v / 10 == 10 * (s[0] as int - '0' as int) + (s[1] as int - '0' as int);
    }
  }

  /** Text is an IPv4 address exactly when it is the dotted text of that address: four parts, no leading zero. */
  lemma ParseV4Meaning(s: string, v: nat)
    ensures ParseV4(s) == Some(v) <==> v < 0x1_0000_0000 && s == ShowV4(v)
  {
    hide Octet, ShowOctet, Split, Join;
    if v < 0x1_0000_0000 && s == ShowV4(v) {
      V4TextRoundTrip(v);
    }
    if ParseV4(s) == Some(v) {
      var parts := Split(s);
      QuadsShown(parts[0], parts[1], parts[2], parts[3], v);
      assert parts == [parts[0], parts[1], parts[2], parts[3]];
      JoinOfSplit(s);
    }
  }

  lemma QuadsShown(a: string, b: string, c: string, d: string, v: nat)
    requires Octet(a).Some? && Octet(b).Some? && Octet(c).Some? && Octet(d).Some?
    requires v == ((Octet(a).value * 0x100 + Octet(b).value) * 0x100 + Octet(c).value) * 0x100 + Octet(d).value
    ensures v < 0x1_0000_0000 && ShowV4(v) == Join([a, b, c, d])
  {
    hide Octet, ShowOctet, Join;
    OctetShown(a);
    OctetShown(b);
    OctetShown(c);
    OctetShown(d);
    QuadsApart(v, Octet(a).value, Octet(b).value, Octet(c).value, Octet(d).value);
  }

  lemma QuadsApart(v: nat, a: nat, b: nat, c: nat, d: nat)
    requires a < 256 && b < 256 && c < 256 && d < 256 && v == ((a * 0x100 + b) * 0x100 + c) * 0x100 + d
    ensures v < 0x1_0000_0000 && v / 0x100_0000 == a && v / 0x1_0000 % 0x100 == b
    ensures v / 0x100 % 0x100 == c && v % 0x100 == d
  {
    assert v / 0x100 == (a * 0x100 + b) * 0x100 + c && v / 0x1_0000 == a * 0x100 + b;
  }

  // ---------- hostnames ----------

  /** `\.?$`: one trailing dot is of no account. */
  function Undotted(h: string): (t: string) {
    if h != "" && h[|h| - 1] == '.' then h[..|h| - 1] else h
  }

  /** Labels of letters, digits and hyphens, one to 63 characters each; a hyphen may stand at the edge of the
      last label only. */
  predicate WellFormed(labels: seq<string>) {
    && labels != []
    && (forall i :: 0 <= i < |labels| - 1 ==> InnerLabel(labels[i]))
    && HostChars(labels[|labels| - 1])
  }

  lemma WellFormedCons(head: string, tail: seq<string>)
    requires tail != []
    ensures WellFormed([head] + tail) <==> InnerLabel(head) && WellFormed(tail)
  {
    hide InnerLabel, HostChars;
    var all := [head] + tail;
    assert all[0] == head && all[|all| - 1] == tail[|tail| - 1];
    if WellFormed(all) {
      forall i | 0 <= i < |tail| - 1
        ensures InnerLabel(tail[i])
      {
        assert all[i + 1] == tail[i];
      }
    }
    if InnerLabel(head) && WellFormed(tail) {
      forall i | 0 <= i < |all| - 1
        ensures InnerLabel(all[i])
      {
        assert i > 0 ==> all[i] == tail[i - 1];
      }
    }
  }

  /** The pattern accepts exactly the texts whose labels are well formed, one trailing dot aside. */
  lemma {:induction false} HostnameMeaning(h: string)
    ensures MatchesHostname(h) <==> WellFormed(Split(Undotted(h)))
    decreases |h|
  {
    hide HostChars, InnerLabel, WellFormed, Split;
    if '.' !in Undotted(h) {
      NoSplit(Undotted(h));
      OneWellFormed(Undotted(h));
      LoneLabel(h);
    } else {
      var head, rest := h[..FirstDot(h)], h[FirstDot(h) + 1..];
      DottedHost(h);
      HostnameMeaning(rest);
      SplitCons(head, Undotted(rest));
      WellFormedCons(head, Split(Undotted(rest)));
    }
  }

  lemma OneWellFormed(part: string)
    ensures WellFormed([part]) <==> HostChars(part)
  {
  }

  lemma NoDotInside(s: string)
    requires HostChars(s)
    ensures '.' !in s && s != ""
  {
  }

  /** Without a dot, or with only a last one, the pattern comes down to one label. */
  lemma LoneLabel(h: string)
    requires '.' !in Undotted(h)
    ensures MatchesHostname(h) <==> HostChars(Undotted(h))
  {
    hide HostChars, InnerLabel;
    if HostChars(h) {
      NoDotInside(h);
    }
    if h != "" && h[|h| - 1] == '.' {
      assert FirstDot(h) == |h| - 1 by {
        assert forall i :: 0 <= i < |h| - 1 ==> h[i] == Undotted(h)[i];
      }
      assert h[FirstDot(h) + 1..] == "";
      EmptyNeverMatches();
    }
  }

  lemma EmptyNeverMatches()
    ensures !MatchesHostname("")
  {
  }

  /** With a dot before the last character the pattern takes a label off the front. */
  lemma DottedHost(h: string)
    requires '.' in Undotted(h)
    ensures '.' in h && '.' !in h[..FirstDot(h)]
    ensures Undotted(h) == h[..FirstDot(h)] + "." + Undotted(h[FirstDot(h) + 1..])
    ensures MatchesHostname(h) <==> InnerLabel(h[..FirstDot(h)]) && MatchesHostname(h[FirstDot(h) + 1..])
  {
    hide HostChars, InnerLabel, FirstDot;
    DotInside(h);
    NotOneLabel(h);
    UndottedApart(h, FirstDot(h));
  }

  lemma DotInside(h: string)
    requires '.' in Undotted(h)
    ensures '.' in h && FirstDot(h) < |Undotted(h)| && '.' !in h[..FirstDot(h)]
  {
    var k :| 0 <= k < |Undotted(h)| && Undotted(h)[k] == '.';
    assert h[k] == '.';
  }

  lemma NotOneLabel(h: string)
    requires '.' in Undotted(h)
    ensures !HostChars(h) && !(h != "" && h[|h| - 1] == '.' && HostChars(h[..|h| - 1]))
  {
    hide HostChars;
    var k :| 0 <= k < |Undotted(h)| && Undotted(h)[k] == '.';
    assert h[k] == '.';
    if HostChars(h) {
      NoDotInside(h);
      assert false;
    }
    if h[|h| - 1] == '.' && HostChars(h[..|h| - 1]) {
      NoDotInside(h[..|h| - 1]);
      assert false;
    }
  }

  lemma UndottedApart(h: string, d: nat)
    requires d < |Undotted(h)| && h[d] == '.'
    ensures Undotted(h) == h[..d] + "." + Undotted(h[d + 1..])
  {
    var rest := h[d + 1..];
    if rest != "" {
      assert rest[|rest| - 1] == h[|h| - 1];
      assert h == h[..d] + "." + rest;
    }
  }

  // ---------- the host check ----------

  /** A host that gets no further than its text: missing, with a percent sign, too long, or not encodable. */
  predicate Unusable(raw: string, idna: string -> Option<string>) {
    raw == "" || '%' in raw || |raw| > 253 || Normalise(raw, idna).None?
  }

  /** Every outcome of the host check, by the text alone and with no cheap test first. A usable host is a literal
      exactly when it parses as an address. Any other is a name exactly when it is not made of digits and dots
      alone and its labels are well formed; and it is refused otherwise. */
  lemma CheckHostMeaning(raw: string, idna: string -> Option<string>, v6: string -> Option<nat>)
    ensures var r := CheckHost(raw, idna, v6);
            if Unusable(raw, idna) then r.Refused?
            else
              var host := Normalise(raw, idna).value;
              match IpAddress(host, v6)
              case Some(address) => r == Literal(host, address)
              case None =>
                r == if !NumericShaped(host) && WellFormed(Split(Undotted(host))) then Name(host) else Refused
  {
    hide IpAddress, NumericShaped, MatchesHostname, WellFormed, Normalise;
    if !Unusable(raw, idna) {
      var host := Normalise(raw, idna).value;
      HostnameMeaning(host);
      if IpAddress(host, v6).Some? {
        CheapTestAgrees(host, v6);
      }
    }
  }

  /** A host of digits and dots that is not the dotted text of an IPv4 address is refused: there is no other
      spelling of an address. */
  lemma EncodedIsRefused(raw: string, idna: string -> Option<string>, v6: string -> Option<nat>)
    requires NumericShaped(raw) && forall v: nat :: v < 0x1_0000_0000 ==> raw != ShowV4(v)
    ensures CheckHost(raw, idna, v6).Refused?
  {
    hide ParseV4, ShowV4;
    NumericIsPlain(raw);
    CheckHostMeaning(raw, idna, v6);
    if ParseV4(raw).Some? {
      ParseV4Meaning(raw, ParseV4(raw).value);
    }
  }

  lemma NumericIsPlain(s: string)
    requires NumericShaped(s)
    ensures IsAscii(s) && Lower(s) == s && ':' !in s
  {
  }

  /** A number in one part, a quad of two, and a quad with a zero before a part: all refused. */
  lemma ThreeEncodings(idna: string -> Option<string>, v6: string -> Option<nat>)
    ensures CheckHost("2130706433", idna, v6).Refused?
    ensures CheckHost("127.1", idna, v6).Refused?
    ensures CheckHost("0177.0.0.1", idna, v6).Refused?
  {
    hide CheckHost, ShowV4;
    assert NumericShaped("2130706433") && NumericShaped("127.1") && NumericShaped("0177.0.0.1");
    forall v: nat | v < 0x1_0000_0000
      ensures "2130706433" != ShowV4(v) && "127.1" != ShowV4(v) && "0177.0.0.1" != ShowV4(v)
    {
      V4TextRoundTrip(v);
      OneDot();
      LeadingZero();
    }
    EncodedIsRefused("2130706433", idna, v6);
    EncodedIsRefused("127.1", idna, v6);
    EncodedIsRefused("0177.0.0.1", idna, v6);
  }

  lemma OneDot()
    ensures ParseV4("2130706433").None? && ParseV4("127.1").None?
  {
    NoSplit("2130706433");
    assert "127" + "." + "1" == "127.1";
    SplitCons("127", "1");
    NoSplit("1");
  }

  lemma LeadingZero()
    ensures ParseV4("0177.0.0.1").None?
  {
    assert "0177" + "." + "0.0.1" == "0177.0.0.1";
    SplitCons("0177", "0.0.1");
    assert Split("0177.0.0.1")[0] == "0177";
    assert Octet("0177").None?;
  }

  // ---------- allowlist entries ----------

  /** Trimming takes spaces off both ends and nothing else. */
  lemma {:induction false} TrimMeaning(s: string) returns (i: nat, j: nat)
    ensures i <= j <= |s| && Trim(s) == s[i..j]
    ensures forall k :: 0 <= k < i || j <= k < |s| ==> IsSpace(s[k])
    decreases |s|
  {
    if s == "" {
      i, j := 0, 0;
    } else if IsSpace(s[0]) {
      i, j := TrimMeaning(s[1..]);
      assert s[1..][i..j] == s[i + 1..j + 1];
      forall k | 0 <= k < i + 1 || j + 1 <= k < |s|
        ensures IsSpace(s[k])
      {
        assert k > 0 ==> s[k] == s[1..][k - 1];
      }
      i, j := i + 1, j + 1;
    } else if IsSpace(s[|s| - 1]) {
      i, j := TrimMeaning(s[..|s| - 1]);
      assert s[..|s| - 1][i..j] == s[i..j];
      forall k | 0 <= k < i || j <= k < |s|
        ensures IsSpace(s[k])
      {
        assert k < |s| - 1 ==> s[k] == s[..|s| - 1][k];
      }
    } else {
      i, j := 0, |s|;
    }
  }

  /** An entry that means something: not empty, not every host, and with no star but a whole leftmost label. */
  predicate Meaningful(entry: string) {
    entry != "" && entry != "*" && ('*' !in entry || (IsWildcard(entry) && '*' !in entry[2..]))
  }

  /** Every ASCII entry, trimmed and undotted, is taken in lower case exactly when it means something. */
  lemma AsPatternMeaning(pattern: string, idna: string -> Option<string>)
    requires IsAscii(pattern)
    ensures var entry := StripDots(Trim(pattern));
            AsPattern(pattern, idna) == if Meaningful(entry) then Some(Lower(entry)) else None
  {
    hide Trim, StripDots, Split, FirstDot, IsAscii, Lower;
    var entry := StripDots(Trim(pattern));
    TrimIsAscii(pattern);
    AsciiPart(Trim(pattern), entry, 0);
    if '.' in entry {
      var head, rest := entry[..FirstDot(entry)], entry[FirstDot(entry) + 1..];
      AsciiPart(entry, rest, FirstDot(entry) + 1);
      AtFirstDot(entry);
      SplitCons(head, rest);
      EntryMeaning(entry, head, rest, idna);
    } else {
      NoSplit(entry);
      AsciiPart(entry, "", 0);
      UndottedEntry(entry, idna);
    }
  }

  lemma EntryMeaning(entry: string, head: string, rest: string, idna: string -> Option<string>)
    requires IsAscii(entry) && IsAscii(rest) && entry == head + "." + rest && '.' !in head
    requires entry[|entry| - 1] != '.'
    ensures PatternFrom(entry, head, rest, idna) == if Meaningful(entry) then Some(Lower(entry)) else None
  {
    hide IsAscii, Lower;
    StarInEither(head, rest);
    if head == "*" {
      assert entry == "*." + rest && entry[2..] == rest;
      StarDot(rest);
    } else {
      NotWildcard(entry, head, rest);
    }
  }

  /** What begins with a star and a dot has the star for its leftmost label. */
  lemma NotWildcard(entry: string, head: string, rest: string)
    requires entry == head + "." + rest && '.' !in head && head != "*"
    ensures !IsWildcard(entry)
  {
    assert head == entry[..|head|] && entry[|head|] == '.';
  }

  lemma StarDot(rest: string)
    ensures Lower("*." + rest) == "*." + Lower(rest) && IsWildcard("*." + rest)
  {
  }

  lemma UndottedEntry(entry: string, idna: string -> Option<string>)
    requires IsAscii(entry) && '.' !in entry
    ensures PatternFrom(entry, entry, "", idna) == if Meaningful(entry) then Some(Lower(entry)) else None
  {
    hide IsAscii, Lower;
  }
}

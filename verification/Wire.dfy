/** Optional values, bytes in network order, and the ASCII text of names. */
module Wire {

  datatype Option<+T> = None | Some(value: T)

  type byte = x: int | 0 <= x < 256

  // ---------- big-endian integers ----------

  function U16(m: seq<byte>, o: nat): (v: nat)
    requires o + 2 <= |m|
    ensures v < 0x1_0000
  {
    var high: int := m[o];
    high * 0x100 + m[o + 1]
  }

  function U32(m: seq<byte>, o: nat): (v: nat)
    requires o + 4 <= |m|
    ensures v < 0x1_0000_0000
  {
    U16(m, o) * 0x1_0000 + U16(m, o + 2)
  }

  function PutU16(v: nat): (w: seq<byte>)
    requires v < 0x1_0000
    ensures |w| == 2 && U16(w, 0) == v
  {
    [v / 0x100, v % 0x100]
  }

  function PutU32(v: nat): (w: seq<byte>)
    requires v < 0x1_0000_0000
    ensures |w| == 4 && U32(w, 0) == v
  {
    PutU16(v / 0x1_0000) + PutU16(v % 0x1_0000)
  }

  /** A byte string read as one unsigned number, most significant byte first. */
  function Number(raw: seq<byte>): (v: nat)
  {
    if raw == [] then 0 else Number(raw[..|raw| - 1]) * 0x100 + raw[|raw| - 1]
  }

  // ---------- what a message holds ----------

  /** `w` stands in `m` at offset `o`. */
  ghost predicate Holds(m: seq<byte>, o: nat, w: seq<byte>) {
    o + |w| <= |m| && forall i :: 0 <= i < |w| ==> w[i] == m[o + i]
  }

  lemma HoldsMiddle(before: seq<byte>, w: seq<byte>, behind: seq<byte>)
    ensures Holds(before + w + behind, |before|, w)
  {
  }

  lemma HoldsParts(m: seq<byte>, o: nat, a: seq<byte>, b: seq<byte>)
    requires Holds(m, o, a + b)
    ensures Holds(m, o, a) && Holds(m, o + |a|, b)
  {
    forall i | 0 <= i < |a|
      ensures a[i] == m[o + i]
    {
      assert a[i] == (a + b)[i];
    }
    forall i | 0 <= i < |b|
      ensures b[i] == m[o + |a| + i]
    {
      assert b[i] == (a + b)[|a| + i];
    }
  }

  // ---------- text ----------

  predicate IsAscii(s: string) {
    forall i :: 0 <= i < |s| ==> s[i] < 128 as char
  }

  predicate IsAsciiBytes(raw: seq<byte>) {
    forall i :: 0 <= i < |raw| ==> raw[i] < 128
  }

  function Text(raw: seq<byte>): (s: string)
    ensures |s| == |raw|
    ensures forall i :: 0 <= i < |s| ==> s[i] == raw[i] as char
  {
    seq(|raw|, i requires 0 <= i < |raw| => raw[i] as char)
  }

  function Raw(s: string): (raw: seq<byte>)
    requires IsAscii(s)
    ensures |raw| == |s| && IsAsciiBytes(raw)
    ensures Text(raw) == s
  {
    seq(|s|, i requires 0 <= i < |s| => s[i] as int)
  }

  function LowerChar(c: char): (lower: char) {
    if 'A' <= c <= 'Z' then c + 32 as char else c
  }

  /** `str.lower` on ASCII text. */
  function Lower(s: string): (r: string)
    ensures |r| == |s|
    ensures forall i :: 0 <= i < |s| ==> r[i] == LowerChar(s[i])
  {
    seq(|s|, i requires 0 <= i < |s| => LowerChar(s[i]))
  }

  /** Two letters that differ in case alone, or one character twice. */
  predicate CaseAlike(x: char, y: char) {
    || x == y
    || ('A' <= x <= 'Z' && y as int == x as int + 32)
    || ('A' <= y <= 'Z' && x as int == y as int + 32)
  }

  /** Lowering makes two texts one exactly when they agree place by place up to the case of ASCII letters. */
  lemma LowerMeaning(s: string, t: string)
    ensures Lower(s) == Lower(t) <==> |s| == |t| && forall i :: 0 <= i < |s| ==> CaseAlike(s[i], t[i])
  {
    if Lower(s) == Lower(t) {
      forall i | 0 <= i < |s|
        ensures CaseAlike(s[i], t[i])
      {
        assert Lower(s)[i] == Lower(t)[i];
      }
    }
  }

  /** `str.rstrip(".")` */
  function StripDots(s: string): (r: string)
    ensures r <= s
    ensures r == "" || r[|r| - 1] != '.'
    ensures forall i :: |r| <= i < |s| ==> s[i] == '.'
  {
    if s != "" && s[|s| - 1] == '.' then StripDots(s[..|s| - 1]) else s
  }

  function FirstDot(s: string): (d: nat)
    requires '.' in s
    ensures d < |s| && s[d] == '.' && forall i :: 0 <= i < d ==> s[i] != '.'
  {
    if s[0] == '.' then 0 else 1 + FirstDot(s[1..])
  }

  predicate NoDots(labels: seq<string>) {
    forall i :: 0 <= i < |labels| ==> '.' !in labels[i]
  }

  /** `str.split(".")` */
  function Split(s: string): (labels: seq<string>)
    ensures labels != []
    ensures NoDots(labels)
  {
    if '.' !in s then [s] else [s[..FirstDot(s)]] + Split(s[FirstDot(s) + 1..])
  }

  /** `".".join(labels)` */
  function Join(labels: seq<string>): (s: string)
  {
    if labels == [] then ""
    else if |labels| == 1 then labels[0]
    else labels[0] + "." + Join(labels[1..])
  }

  lemma JoinCons(head: string, tail: seq<string>)
    requires tail != []
    ensures Join([head] + tail) == head + "." + Join(tail)
  {
    assert ([head] + tail)[1..] == tail;
  }

  /** Joining is the inverse of splitting, so two texts with the same labels are the same text. */
  lemma {:induction false} JoinOfSplit(s: string)
    ensures Join(Split(s)) == s
  {
    if '.' in s {
      var d := FirstDot(s);
      JoinOfSplit(s[d + 1..]);
      JoinCons(s[..d], Split(s[d + 1..]));
      assert s == s[..d] + "." + s[d + 1..];
    }
  }

  /** Splitting takes off the text before the first dot. */
  lemma SplitCons(head: string, rest: string)
    requires '.' !in head
    ensures Split(head + "." + rest) == [head] + Split(rest)
  {
    var s := head + "." + rest;
    assert s[|head|] == '.';
    assert forall i :: 0 <= i < |head| ==> s[i] == head[i];
    assert FirstDot(s) == |head|;
    assert s[..|head|] == head && s[|head| + 1..] == rest;
  }

  lemma {:induction false} SplitOfJoin(labels: seq<string>)
    requires labels != []
    requires NoDots(labels)
    ensures Split(Join(labels)) == labels
  {
    if |labels| > 1 {
      SplitCons(labels[0], Join(labels[1..]));
      SplitOfJoin(labels[1..]);
    }
  }

  /** Labels as they are compared: up to the case of ASCII letters. */
  function LowerAll(labels: seq<string>): (lower: seq<string>)
    ensures |lower| == |labels|
    ensures forall i :: 0 <= i < |labels| ==> lower[i] == Lower(labels[i])
  {
    seq(|labels|, i requires 0 <= i < |labels| => Lower(labels[i]))
  }

  lemma LowerDots(s: string)
    ensures '.' in Lower(s) <==> '.' in s
  {
    if '.' in s {
      var i :| 0 <= i < |s| && s[i] == '.';
      assert Lower(s)[i] == '.';
    }
  }

  lemma {:induction false} LowerJoin(labels: seq<string>)
    ensures Lower(Join(labels)) == Join(LowerAll(labels))
  {
    hide Lower;
    if |labels| > 1 {
      var head, tail := labels[0], labels[1..];
      LowerJoin(tail);
      LowerDotted(head, Join(tail));
      assert LowerAll(labels)[1..] == LowerAll(tail);
    } else {
      LowerNothing();
    }
  }

  lemma LowerDotted(x: string, y: string)
    ensures Lower(x + "." + y) == Lower(x) + "." + Lower(y)
  {
  }

  lemma LowerNothing()
    ensures Lower("") == ""
  {
  }

  /** Two names with one text up to case have the same labels up to case exactly when the one given by labels
      has some, and none of them holds a dot. */
  lemma SameTextUpToCase(labels: seq<string>, name: string)
    requires Lower(Join(labels)) == Lower(name)
    ensures LowerAll(labels) == LowerAll(Split(name)) <==> labels != [] && NoDots(labels)
  {
    hide Lower, Join, Split;
    LowerJoin(labels);
    LowerJoin(Split(name));
    JoinOfSplit(name);
    DotsStay(labels);
    DotsStay(Split(name));
    SplitOfJoin(LowerAll(Split(name)));
    if labels != [] && NoDots(labels) {
      SplitOfJoin(LowerAll(labels));
    }
  }

  lemma DotsStay(labels: seq<string>)
    ensures NoDots(LowerAll(labels)) <==> NoDots(labels)
  {
    forall i | 0 <= i < |labels|
      ensures '.' in LowerAll(labels)[i] <==> '.' in labels[i]
    {
      LowerDots(labels[i]);
    }
  }

  /** Splitting `x.y` splits each side. */
  lemma {:induction false} SplitAtDot(x: string, y: string)
    ensures Split(x + "." + y) == Split(x) + Split(y)
    decreases |x|
  {
    hide Split;
    if '.' in x {
      var head, rest := x[..FirstDot(x)], x[FirstDot(x) + 1..];
      AtFirstDot(x);
      SplitAtDot(rest, y);
      SplitCons(head, rest);
      SplitCons(head, rest + "." + y);
      DotsApart(head, rest, y);
      assert [head] + (Split(rest) + Split(y)) == [head] + Split(rest) + Split(y);
    } else {
      SplitCons(x, y);
      NoSplit(x);
    }
  }

  lemma AtFirstDot(x: string)
    requires '.' in x
    ensures x == x[..FirstDot(x)] + "." + x[FirstDot(x) + 1..] && '.' !in x[..FirstDot(x)]
  {
  }

  lemma DotsApart(a: string, b: string, c: string)
    ensures a + "." + b + "." + c == a + "." + (b + "." + c)
  {
  }

  lemma NoSplit(x: string)
    requires '.' !in x
    ensures Split(x) == [x]
  {
  }

  /** The high-bit masks the codec uses, as the ranges the rest of the model writes them as. */
  lemma MasksAreRanges(b: bv8, w: bv16)
    ensures (b & 0xC0 == 0xC0) == (b >= 0xC0)
    ensures (b & 0xC0 != 0) == (b >= 0x40)
    ensures w & !(0xC000 as bv16) == w % 0x4000
    ensures (w & 0x8000 != 0) == (w >= 0x8000)
    ensures (w & 0x0200 != 0) == (w / 0x0200 % 2 == 1)
    ensures w & 0x000F == w % 0x10
  {
  }
}

/** Domain names on the wire: the label encoder and the pointer-following decoder (RFC 1035, 4.1.4). */
module Names {
  import opened Wire

  const MAX_NAME_BYTES := 255
  const MAX_LABEL_BYTES := 63
  const MAX_JUMPS := 64

  /** A decoded name, and the offset just past it in its original position. */
  datatype Decoded = Decoded(text: string, next: nat)

  // ---------- encoding ----------

  predicate IsLabel(part: string) {
    1 <= |part| <= MAX_LABEL_BYTES && IsAscii(part)
  }

  predicate AreLabels(labels: seq<string>) {
    forall i :: 0 <= i < |labels| ==> IsLabel(labels[i])
  }

  /** The bytes a list of labels occupies, length bytes included, final zero not. */
  function LabelBytes(labels: seq<string>): (n: nat)
  {
    if labels == [] then 0 else |labels[0]| + 1 + LabelBytes(labels[1..])
  }

  function Labels(labels: seq<string>): (w: seq<byte>)
    requires AreLabels(labels)
    ensures |w| == LabelBytes(labels)
  {
    if labels == [] then [] else [|labels[0]|] + Raw(labels[0]) + Labels(labels[1..])
  }

  /** Length-prefixed labels closed by the root label. */
  function WireName(labels: seq<string>): (w: seq<byte>)
    requires AreLabels(labels)
  {
    Labels(labels) + [0]
  }

  /** What can be put on the wire: non-empty ASCII labels of at most 63 bytes, 255 bytes in all. */
  predicate Encodable(name: string) {
    var labels := Split(StripDots(name));
    && StripDots(name) != ""
    && AreLabels(labels)
    && LabelBytes(labels) + 1 <= MAX_NAME_BYTES
  }

  function Encode(name: string): (w: Option<seq<byte>>)
    ensures w.Some? <==> Encodable(name)
  {
    if Encodable(name) then Some(WireName(Split(StripDots(name)))) else None
  }

  lemma LabelsCons(part: string, labels: seq<string>)
    requires IsLabel(part) && AreLabels(labels)
    ensures AreLabels([part] + labels) && Labels([part] + labels) == [|part|] + Raw(part) + Labels(labels)
  {
    hide Raw, IsLabel;
    IsAsciiLabel(part);
    assert ([part] + labels)[1..] == labels;
  }

  lemma IsAsciiLabel(part: string)
    requires IsLabel(part)
    ensures IsAscii(part) && |part| < 256
  {
  }

  lemma {:induction false} LabelsAppend(labels: seq<string>, part: string)
    requires AreLabels(labels) && IsLabel(part)
    ensures AreLabels(labels + [part])
    ensures Labels(labels + [part]) == Labels(labels) + [|part|] + Raw(part)
  {
    hide Raw, Labels, IsLabel;
    IsAsciiLabel(part);
    if labels == [] {
      NoLabelsNoBytes();
      LabelsCons(part, []);
      assert [] + [part] == [part] + [] == [part];
      assert [|part|] + Raw(part) + [] == [] + [|part|] + Raw(part);
    } else {
      var first, rest := labels[0], labels[1..];
      LabelsAppend(rest, part);
      LabelsCons(first, rest);
      LabelsCons(first, rest + [part]);
      assert labels == [first] + rest && labels + [part] == [first] + (rest + [part]);
      IsAsciiLabel(first);
      var head, tail := [|first|] + Raw(first), Labels(rest);
      assert head + (tail + [|part|] + Raw(part)) == head + tail + [|part|] + Raw(part);
    }
  }

  lemma NoLabelsNoBytes()
    ensures AreLabels([]) && Labels([]) == []
  {
  }

  method EncodeName(name: string) returns (w: Option<seq<byte>>)
    ensures w == Encode(name)
  {
    hide Split, StripDots;
    var stripped := StripDots(name);
    if stripped == "" {
      return None;
    }
    var labels := Split(stripped);
    var out: seq<byte> := [];
    for i := 0 to |labels|
      invariant AreLabels(labels[..i])
      invariant out == Labels(labels[..i])
    {
      var part := labels[i];
      if !IsAscii(part) || part == "" || |part| > MAX_LABEL_BYTES {
        return None;
      }
      LabelsAppend(labels[..i], part);
      assert labels[..i + 1] == labels[..i] + [part];
      out := out + [|part|];
      out := out + Raw(part);
    }
    assert labels[..|labels|] == labels;
    assert LabelBytes(labels) == |out|;
    out := out + [0];
    if |out| > MAX_NAME_BYTES {
      return None;
    }
    return Some(out);
  }

  // ---------- decoding ----------

  predicate IsPointer(length: byte) { length >= 0xC0 }

  predicate IsReserved(length: byte) { 0x40 <= length < 0xC0 }

  function Target(m: seq<byte>, o: nat): (t: nat)
    requires o + 1 < |m|
  {
    U16(m, o) % 0x4000
  }

  /** The label whose length byte is at `o`, if it lies inside the message and is ASCII. */
  function ReadLabel(m: seq<byte>, o: nat): (text: Option<string>)
    requires o < |m| && 1 <= m[o] < 0x40
    ensures text.Some? ==> o + 1 + m[o] <= |m| && |text.value| == m[o] && IsLabel(text.value)
  {
    if o + 1 + m[o] <= |m| && IsAsciiBytes(m[o + 1..o + 1 + m[o]]) then Some(Text(m[o + 1..o + 1 + m[o]]))
    else None
  }

  /** What a name means: the labels it expands to, through exactly `jumps` compression pointers.
      No bound appears here, so a pointer cycle is a name that expands to nothing. */
  ghost predicate Expands(m: seq<byte>, o: nat, labels: seq<string>, jumps: nat)
    decreases |labels| + jumps
  {
    && o < |m|
    && if IsPointer(m[o]) then
         jumps > 0 && o + 1 < |m| && Expands(m, Target(m, o), labels, jumps - 1)
       else if IsReserved(m[o]) then false
       else if m[o] == 0 then labels == [] && jumps == 0
       else
         && labels != []
         && ReadLabel(m, o) == Some(labels[0])
         && Expands(m, o + 1 + m[o], labels[1..], jumps)
  }

  /** Where a name ends in its original position: past the first pointer or the root label. */
  function EndOf(m: seq<byte>, o: nat): (e: Option<nat>)
    ensures e.Some? ==> o < e.value
    decreases |m| - o
  {
    if o >= |m| then None
    else if IsPointer(m[o]) then Some(o + 2)
    else if m[o] == 0 then Some(o + 1)
    else EndOf(m, o + 1 + m[o])
  }

  function Prepend(labels: seq<string>, rest: Option<seq<string>>): (all: Option<seq<string>>) {
    match rest case None => None case Some(r) => Some(labels + r)
  }

  /** Expansion under the two budgets: `room` label bytes and `hops` pointers. */
  function Expand(m: seq<byte>, o: nat, room: nat, hops: nat): (labels: Option<seq<string>>)
    decreases room + hops, |m|
  {
    if o >= |m| then None
    else if IsPointer(m[o]) then
      if o + 1 >= |m| || hops == 0 || Target(m, o) >= |m| then None
      else Expand(m, Target(m, o), room, hops - 1)
    else if IsReserved(m[o]) then None
    else if m[o] == 0 then Some([])
    else if m[o] + 1 > room || ReadLabel(m, o).None? then None
    else
      Prepend([ReadLabel(m, o).value], Expand(m, o + 1 + m[o], room - m[o] - 1, hops))
  }

  function Decode(m: seq<byte>, o: nat): (d: Option<Decoded>)
  {
    match Expand(m, o, MAX_NAME_BYTES, MAX_JUMPS)
    case None => None
    case Some(labels) => (match EndOf(m, o) case None => None case Some(e) => Some(Decoded(Join(labels), e)))
  }

  /** Expansion is a function of where the name starts. */
  lemma {:induction false} ExpansionUnique(m: seq<byte>, o: nat, l1: seq<string>, j1: nat, l2: seq<string>, j2: nat)
    requires Expands(m, o, l1, j1) && Expands(m, o, l2, j2)
    ensures l1 == l2 && j1 == j2
    decreases |l1| + j1
  {
    if IsPointer(m[o]) {
      ExpansionUnique(m, Target(m, o), l1, j1 - 1, l2, j2 - 1);
    } else if m[o] != 0 {
      ExpansionUnique(m, o + 1 + m[o], l1[1..], j1, l2[1..], j2);
      assert l1 == [l1[0]] + l1[1..] && l2 == [l2[0]] + l2[1..];
    }
  }

  /** A decoded name is a real expansion inside the budgets, and its in-place end is in the message. */
  lemma {:induction false} ExpandSound(m: seq<byte>, o: nat, room: nat, hops: nat) returns (jumps: nat)
    requires Expand(m, o, room, hops).Some?
    ensures jumps <= hops && LabelBytes(Expand(m, o, room, hops).value) <= room
    ensures Expands(m, o, Expand(m, o, room, hops).value, jumps)
    ensures EndOf(m, o).Some? && o < EndOf(m, o).value <= |m|
    decreases room + hops
  {
    if IsPointer(m[o]) {
      jumps := ExpandSound(m, Target(m, o), room, hops - 1);
      jumps := jumps + 1;
    } else if m[o] == 0 {
      jumps := 0;
    } else {
      jumps := ExpandSound(m, o + 1 + m[o], room - m[o] - 1, hops);
      var labels := Expand(m, o, room, hops).value;
      assert labels[1..] == Expand(m, o + 1 + m[o], room - m[o] - 1, hops).value;
    }
  }

  /** Every expansion inside the budgets is found, whatever else the message holds. */
  lemma {:induction false} ExpandComplete(m: seq<byte>, o: nat, room: nat, hops: nat, labels: seq<string>, jumps: nat)
    requires Expands(m, o, labels, jumps) && jumps <= hops && LabelBytes(labels) <= room
    ensures Expand(m, o, room, hops) == Some(labels)
    decreases |labels| + jumps
  {
    if IsPointer(m[o]) {
      ExpandComplete(m, Target(m, o), room, hops - 1, labels, jumps - 1);
      assert Target(m, o) < |m|;
    } else if m[o] != 0 {
      ExpandComplete(m, o + 1 + m[o], room - m[o] - 1, hops, labels[1..], jumps);
      assert labels == [labels[0]] + labels[1..];
    }
  }

  ghost predicate ExpandsWithin(m: seq<byte>, o: nat, labels: seq<string>, jumps: nat) {
    Expands(m, o, labels, jumps) && jumps <= MAX_JUMPS && LabelBytes(labels) <= MAX_NAME_BYTES
  }

  /** Decoding returns a text exactly when the name expands to it within 64 pointers and 255 bytes,
      and then the end it returns lies after the start and inside the message. */
  lemma DecodeMeaning(m: seq<byte>, o: nat)
    ensures Decode(m, o).Some? <==> exists labels, jumps :: ExpandsWithin(m, o, labels, jumps)
    ensures forall labels, jumps ::
              Decode(m, o).Some? && Expands(m, o, labels, jumps) ==> Decode(m, o).value.text == Join(labels)
    ensures Decode(m, o).Some? ==> o < Decode(m, o).value.next <= |m|
    ensures Decode(m, o).Some? ==> EndOf(m, o) == Some(Decode(m, o).value.next)
  {
    var found := Expand(m, o, MAX_NAME_BYTES, MAX_JUMPS);
    if found.Some? {
      var jumps := ExpandSound(m, o, MAX_NAME_BYTES, MAX_JUMPS);
      assert ExpandsWithin(m, o, found.value, jumps);
      forall l, j | Expands(m, o, l, j)
        ensures l == found.value
      {
        ExpansionUnique(m, o, l, j, found.value, jumps);
      }
    }
    forall l, j | ExpandsWithin(m, o, l, j)
      ensures found == Some(l) && Decode(m, o).Some?
    {
      ExpandComplete(m, o, MAX_NAME_BYTES, MAX_JUMPS, l, j);
      var _ := ExpandSound(m, o, MAX_NAME_BYTES, MAX_JUMPS);
    }
  }

  lemma PrependEnds(labels: seq<string>)
    ensures Prepend(labels, Some([])) == Some(labels) && Prepend(labels, None) == None
  {
    assert labels + [] == labels;
  }

  lemma PrependToNothing(rest: Option<seq<string>>)
    ensures Prepend([], rest) == rest
  {
    assert rest.Some? ==> [] + rest.value == rest.value;
  }

  lemma PrependStep(labels: seq<string>, text: string, rest: Option<seq<string>>)
    ensures Prepend(labels, Prepend([text], rest)) == Prepend(labels + [text], rest)
  {
    if rest.Some? {
      assert labels + ([text] + rest.value) == labels + [text] + rest.value;
    }
  }

  lemma ExpandPointer(m: seq<byte>, o: nat, room: nat, hops: nat)
    requires o + 1 < |m| && IsPointer(m[o]) && hops > 0 && Target(m, o) < |m|
    ensures Expand(m, o, room, hops) == Expand(m, Target(m, o), room, hops - 1)
    ensures EndOf(m, o) == Some(o + 2)
  {
  }

  lemma ExpandLabel(m: seq<byte>, o: nat, room: nat, hops: nat, labels: seq<string>)
    requires o < |m| && 1 <= m[o] < 0x40 && m[o] + 1 <= room && ReadLabel(m, o).Some?
    ensures Prepend(labels, Expand(m, o, room, hops))
         == Prepend(labels + [ReadLabel(m, o).value], Expand(m, o + 1 + m[o], room - m[o] - 1, hops))
  {
    PrependStep(labels, ReadLabel(m, o).value, Expand(m, o + 1 + m[o], room - m[o] - 1, hops));
  }

  /** The outcome of one pointer: the new offset, the remembered end and the jump count. */
  function FollowPointer(m: seq<byte>, o: nat, after: Option<nat>, jumps: nat): (r: Option<(nat, Option<nat>, nat)>)
  {
    if o + 1 >= |m| then None
    else if jumps >= MAX_JUMPS then None
    else if Target(m, o) >= |m| then None
    else Some((Target(m, o), if after.None? then Some(o + 2) else after, jumps + 1))
  }

  /** The decoding loop, whose two bounds end it within 192 steps on every input. */
  method FollowLabels(m: seq<byte>, start: nat) returns (found: Option<seq<string>>, end: nat, ghost steps: nat)
    ensures found == Expand(m, start, MAX_NAME_BYTES, MAX_JUMPS)
    ensures found.Some? ==> EndOf(m, start) == Some(end)
    ensures 1 <= steps <= MAX_JUMPS + (MAX_NAME_BYTES / 2) + 1 == 192
  {
    hide Prepend, ReadLabel;
    var labels: seq<string> := [];
    var o: nat, total: nat, jumps: nat := start, 0, 0;
    var after: Option<nat> := None;
    end, steps := start, 0;
    ghost var room: nat, hops: nat := MAX_NAME_BYTES, MAX_JUMPS;
    ghost var whole := Expand(m, start, room, hops);
    PrependToNothing(whole);
    while true
      invariant total + room == MAX_NAME_BYTES && jumps + hops == MAX_JUMPS
      invariant 2 * |labels| <= total && steps == jumps + |labels|
      invariant whole == Prepend(labels, Expand(m, o, room, hops))
      invariant after.None? ==> EndOf(m, start) == EndOf(m, o)
      invariant after.Some? ==> EndOf(m, start) == after
      decreases room + hops
    {
      PrependEnds(labels);
      steps := steps + 1;
      if o >= |m| {
        return None, o, steps;
      }
      var length := m[o];
      if IsPointer(length) {
        var followed := FollowPointer(m, o, after, jumps);
        if followed.None? {
          return None, o, steps;
        }
        ExpandPointer(m, o, room, hops);
        o, after, jumps := followed.value.0, followed.value.1, followed.value.2;
        hops := hops - 1;
        continue;
      }
      if IsReserved(length) {
        return None, o, steps;
      }
      if length == 0 {
        return Some(labels), if after.None? then o + 1 else after.value, steps;
      }
      total := total + length + 1;
      if total > MAX_NAME_BYTES {
        return None, o, steps;
      }
      var text := ReadLabel(m, o);
      if text.None? {
        return None, o, steps;
      }
      ExpandLabel(m, o, room, hops, labels);
      labels := labels + [text.value];
      o := o + 1 + length;
      room := room - length - 1;
    }
  }

  method DecodeName(m: seq<byte>, start: nat) returns (d: Option<Decoded>, ghost steps: nat)
    ensures d == Decode(m, start)
    ensures 1 <= steps <= 192
  {
    var labels, end;
    labels, end, steps := FollowLabels(m, start);
    d := if labels.None? then None else Some(Decoded(Join(labels.value), end));
  }

  // ---------- round trips ----------

  /** One written label, read back. */
  lemma WrittenLabel(m: seq<byte>, o: nat, text: string)
    requires IsLabel(text) && Holds(m, o, [|text|] + Raw(text))
    ensures m[o] == |text| && ReadLabel(m, o) == Some(text)
  {
    HoldsParts(m, o, [|text|], Raw(text));
    assert [|text|][0] == m[o];
    assert m[o + 1..o + 1 + |text|] == Raw(text);
  }

  /** The labels stand one after another from `o`. */
  ghost predicate Spelled(m: seq<byte>, o: nat, labels: seq<string>)
    decreases |labels|
  {
    labels == [] ||
    (o < |m| && 1 <= m[o] < 0x40 && ReadLabel(m, o) == Some(labels[0]) && Spelled(m, o + 1 + m[o], labels[1..]))
  }

  lemma {:induction false} WrittenLabels(m: seq<byte>, o: nat, labels: seq<string>)
    requires AreLabels(labels) && Holds(m, o, Labels(labels))
    ensures Spelled(m, o, labels)
    decreases |labels|
  {
    if labels != [] {
      var first := labels[0];
      HoldsParts(m, o, [|first|] + Raw(first), Labels(labels[1..]));
      WrittenLabel(m, o, first);
      WrittenLabels(m, o + 1 + |first|, labels[1..]);
    }
  }

  /** Spelled-out labels expand to themselves, whatever closes them. */
  lemma {:induction false} SpelledExpands(m: seq<byte>, o: nat, head: seq<string>, tail: seq<string>, jumps: nat)
    requires Spelled(m, o, head) && Expands(m, o + LabelBytes(head), tail, jumps)
    ensures Expands(m, o, head + tail, jumps)
    ensures EndOf(m, o) == EndOf(m, o + LabelBytes(head))
    decreases |head|
  {
    hide ReadLabel;
    if head == [] {
      assert head + tail == tail;
    } else {
      SpelledExpands(m, o + 1 + m[o], head[1..], tail, jumps);
      assert (head + tail)[1..] == head[1..] + tail;
    }
  }

  /** An expansion inside the budgets is what decoding returns. */
  lemma DecodeExpansion(m: seq<byte>, o: nat, labels: seq<string>, jumps: nat)
    requires Expands(m, o, labels, jumps) && jumps <= MAX_JUMPS && LabelBytes(labels) <= MAX_NAME_BYTES
    ensures EndOf(m, o).Some? && Decode(m, o) == Some(Decoded(Join(labels), EndOf(m, o).value))
  {
    ExpandComplete(m, o, MAX_NAME_BYTES, MAX_JUMPS, labels, jumps);
    var _ := ExpandSound(m, o, MAX_NAME_BYTES, MAX_JUMPS);
  }

  /** Written labels closed by `tail`, which is the root label or a pointer, decode to both. */
  lemma DecodeSpelled(m: seq<byte>, o: nat, head: seq<string>, tail: seq<string>, jumps: nat)
    requires Spelled(m, o, head) && Expands(m, o + LabelBytes(head), tail, jumps)
    requires jumps <= MAX_JUMPS && LabelBytes(head + tail) <= MAX_NAME_BYTES
    ensures EndOf(m, o + LabelBytes(head)).Some?
    ensures Decode(m, o) == Some(Decoded(Join(head + tail), EndOf(m, o + LabelBytes(head)).value))
  {
    SpelledExpands(m, o, head, tail, jumps);
    DecodeExpansion(m, o, head + tail, jumps);
  }

  lemma WireNameExpands(m: seq<byte>, o: nat, labels: seq<string>)
    requires AreLabels(labels) && Holds(m, o, WireName(labels))
    ensures Expands(m, o, labels, 0) && EndOf(m, o) == Some(o + |WireName(labels)|)
  {
    hide Expands, EndOf, Spelled, AreLabels, Labels;
    HoldsParts(m, o, Labels(labels), [0]);
    RootExpands(m, o + LabelBytes(labels));
    WrittenLabels(m, o, labels);
    assert labels + [] == labels;
    SpelledExpands(m, o, labels, [], 0);
  }

  lemma RootExpands(m: seq<byte>, o: nat)
    requires Holds(m, o, [0])
    ensures Expands(m, o, [], 0) && EndOf(m, o) == Some(o + 1)
  {
    assert [0][0] == m[o];
  }

  lemma DecodeWritten(m: seq<byte>, o: nat, labels: seq<string>)
    requires AreLabels(labels) && LabelBytes(labels) <= MAX_NAME_BYTES && Holds(m, o, WireName(labels))
    ensures Decode(m, o) == Some(Decoded(Join(labels), o + |WireName(labels)|))
  {
    hide Labels, Holds, Decode, AreLabels, Expands;
    WireNameExpands(m, o, labels);
    DecodeExpansion(m, o, labels, 0);
  }

  /** Decoding an encoded name inside any message gives the name without its trailing dots,
      and the offset just past the encoding. */
  lemma EncodeThenDecode(name: string, before: seq<byte>, behind: seq<byte>)
    requires Encode(name).Some?
    ensures var w := Encode(name).value;
            Decode(before + w + behind, |before|) == Some(Decoded(StripDots(name), |before| + |w|))
  {
    hide Decode, Split, StripDots, Labels, AreLabels, LabelBytes, Holds;
    HoldsMiddle(before, Encode(name).value, behind);
    DecodeWritten(before + Encode(name).value + behind, |before|, Split(StripDots(name)));
    JoinOfSplit(StripDots(name));
  }

  /** The labels of an expansion are labels: one to 63 ASCII bytes each. */
  lemma {:induction false} ExpansionLabels(m: seq<byte>, o: nat, labels: seq<string>, jumps: nat)
    requires Expands(m, o, labels, jumps)
    ensures AreLabels(labels)
    decreases |labels| + jumps
  {
    if IsPointer(m[o]) {
      ExpansionLabels(m, Target(m, o), labels, jumps - 1);
    } else if m[o] != 0 {
      ExpansionLabels(m, o + 1 + m[o], labels[1..], jumps);
    }
  }

  lemma {:induction false} JoinHasNoTrailingDot(labels: seq<string>)
    requires labels != [] && AreLabels(labels)
    requires NoDots(labels)
    ensures Join(labels) != "" && Join(labels)[|Join(labels)| - 1] != '.'
    ensures StripDots(Join(labels)) == Join(labels)
  {
    if |labels| > 1 {
      JoinHasNoTrailingDot(labels[1..]);
    } else {
      assert labels[0][|labels[0]| - 1] in labels[0];
    }
  }

  /** Two lists of labels with one wire form are one list. */
  lemma WireNameInjective(l1: seq<string>, l2: seq<string>)
    requires AreLabels(l1) && AreLabels(l2) && WireName(l1) == WireName(l2)
    ensures l1 == l2
  {
    var w := WireName(l1);
    WireNameExpands(w, 0, l1);
    WireNameExpands(w, 0, l2);
    ExpansionUnique(w, 0, l1, 0, l2, 0);
  }

  /** What a decoded name must be for the encoder to write it back: it has a label, no label holds a dot,
      and with the root label it fits 255 bytes. */
  predicate WritesBack(labels: seq<string>) {
    labels != [] && LabelBytes(labels) < MAX_NAME_BYTES && NoDots(labels)
  }

  /** Decoding then encoding, for every name that decodes: the text re-encodes to its own labels exactly when
      it has a label, no label holds a dot, and the labels fill fewer than 255 bytes. The decoder accepts the
      root name, dots, and one byte more than the encoder emits, because it leaves the root label uncounted. */
  lemma DecodeThenEncode(m: seq<byte>, o: nat, labels: seq<string>, jumps: nat)
    requires Decode(m, o).Some? && Expands(m, o, labels, jumps)
    ensures AreLabels(labels)
    ensures Encode(Decode(m, o).value.text) == Some(WireName(labels)) <==> WritesBack(labels)
  {
    hide Decode, Labels, AreLabels, StripDots, Split;
    DecodeMeaning(m, o);
    ExpansionLabels(m, o, labels, jumps);
    var text := Join(labels);
    if WritesBack(labels) {
      JoinHasNoTrailingDot(labels);
      SplitOfJoin(labels);
    }
    if Encode(text) == Some(WireName(labels)) {
      WireNameInjective(Split(StripDots(text)), labels);
    }
  }

  // ---------- the three ways a decoded name is not written back ----------

  /** A label of `n` letters. */
  function Letters(n: nat): (s: string)
    ensures |s| == n && IsAscii(s) && '.' !in s
  {
    seq(n, _ => 'a')
  }

  /** The root name decodes and is refused. */
  lemma RootIsRefused()
    ensures Decode([0], 0) == Some(Decoded("", 1)) && Encode("") == None
  {
    DecodeWritten([0], 0, []);
  }

  /** Every name of 255 label bytes without dots inside its labels decodes and is refused, and there is one. */
  lemma LongestIsRefused(labels: seq<string>)
    requires AreLabels(labels) && LabelBytes(labels) == MAX_NAME_BYTES
    requires NoDots(labels)
    ensures Decode(WireName(labels), 0) == Some(Decoded(Join(labels), |WireName(labels)|))
    ensures Encode(Join(labels)) == None
  {
    hide AreLabels, Split, Join, StripDots, Labels, Decode;
    DecodeWritten(WireName(labels), 0, labels);
    JoinHasNoTrailingDot(labels);
    SplitOfJoin(labels);
  }

  lemma LongestExists() returns (labels: seq<string>)
    ensures AreLabels(labels) && LabelBytes(labels) == MAX_NAME_BYTES
    ensures NoDots(labels)
  {
    hide LabelBytes, Letters;
    var tail := [Letters(63), Letters(62)];
    labels := [Letters(63), Letters(63)] + tail;
    TwoLabels(labels);
    TwoLabels(tail);
    assert labels[2..] == tail && tail[2..] == [];
    assert LabelBytes([]) == 0 by {
      NoLabels();
    }
  }

  lemma NoLabels()
    ensures LabelBytes([]) == 0
  {
  }

  lemma TwoLabels(labels: seq<string>)
    requires |labels| >= 2
    ensures LabelBytes(labels) == |labels[0]| + |labels[1]| + 2 + LabelBytes(labels[2..])
  {
    assert labels[1..][1..] == labels[2..];
  }

  /** A label that holds a dot decodes and is written back as two. */
  lemma DotIsSplit(left: string, right: string)
    requires IsLabel(left) && IsLabel(right) && IsLabel(left + "." + right) && '.' !in left && '.' !in right
    ensures var one, two := [left + "." + right], [left, right];
            && Decode(WireName(one), 0) == Some(Decoded(left + "." + right, |WireName(one)|))
            && Encode(left + "." + right) == Some(WireName(two)) && WireName(two) != WireName(one)
  {
    hide IsLabel, Split, StripDots, Labels, Decode;
    var one, two := [left + "." + right], [left, right];
    NoLabels();
    TwoLabels(two);
    assert two[2..] == [] && one[1..] == [] && two[1..] == [right];
    LabelLength(left + "." + right);
    DecodeWritten(WireName(one), 0, one);
    assert Join(two) == left + "." + right;
    JoinHasNoTrailingDot(two);
    SplitOfJoin(two);
    if WireName(two) == WireName(one) {
      WireNameInjective(two, one);
    }
  }

  lemma LabelLength(s: string)
    requires IsLabel(s)
    ensures 1 <= |s| <= MAX_LABEL_BYTES && [s][1..] == []
  {
  }

  /** Appending to a message changes no name that already expands in it. */
  lemma {:induction false} ExpandsInLonger(m: seq<byte>, more: seq<byte>, o: nat, labels: seq<string>, jumps: nat)
    requires Expands(m, o, labels, jumps)
    ensures Expands(m + more, o, labels, jumps)
    decreases |labels| + jumps
  {
    if IsPointer(m[o]) {
      ExpandsInLonger(m, more, Target(m, o), labels, jumps - 1);
    } else if m[o] != 0 {
      ExpandsInLonger(m, more, o + 1 + m[o], labels[1..], jumps);
      assert (m + more)[o + 1..o + 1 + m[o]] == m[o + 1..o + 1 + m[o]];
    }
  }
}

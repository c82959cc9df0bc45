/** What the name decoder of packet-rewrite.h computes, stated against an
    independent description of the wire format: the encoder of uncompressed
    names, compression pointers to an encoded suffix, pointer cycles, and the
    set of buffer positions a decoding depends on. */
module NameProperties {
  import opened Wire
  import opened Names

  /** Labels an encoder may emit: 1 to 63 bytes each (section 3.1 of RFC 1035). */
  predicate ValidLabels(labels: seq<Label>)
  {
    forall k :: 0 <= k < |labels| ==> 0 < |labels[k]| < 64
  }

  /** The labels, each preceded by its length byte, without a terminator. */
  function EncodeLabels(labels: seq<Label>): (e: seq<byte>)
    requires ValidLabels(labels)
  {
    if labels == [] then []
    else [|labels[0]| as byte] + labels[0] + EncodeLabels(labels[1..])
  }

  /** An uncompressed name: its labels, then the zero terminator. */
  function EncodeName(labels: seq<Label>): seq<byte>
    requires ValidLabels(labels)
  {
    EncodeLabels(labels) + [0]
  }

  /** The two bytes of a compression pointer to `target`. */
  function PointerBytes(target: nat): (e: seq<byte>)
    requires target < 0x4000
    ensures |e| == 2 && IsPointer(e[0]) && PointerTarget(e[0], e[1]) == target
  {
    [(0xC0 + target / 256) as byte, (target % 256) as byte]
  }

  /** `e` is stored in `p` from offset `at` on. */
  predicate StoredAt(p: seq<byte>, at: nat, e: seq<byte>)
    decreases |e|
  {
    if e == [] then at <= |p|
    else at < |p| && p[at] == e[0] && StoredAt(p, at + 1, e[1..])
  }

  /** Being stored is having the matching slice. */
  lemma {:induction false} StoredAtSlice(p: seq<byte>, at: nat, e: seq<byte>)
    ensures StoredAt(p, at, e) <==> at + |e| <= |p| && p[at..at + |e|] == e
    decreases |e|
  {
    if e != [] {
      StoredAtSlice(p, at + 1, e[1..]);
      if at + |e| <= |p| {
        assert p[at..at + |e|] == [p[at]] + p[at + 1..at + |e|];
        assert e == [e[0]] + e[1..];
      }
    }
  }

  lemma {:induction false} TextSizeConcat(a: seq<Label>, b: seq<Label>)
    ensures TextSize(a + b) == TextSize(a) + TextSize(b)
    decreases |b|
  {
    if b == [] {
      assert a + b == a;
    } else {
      var b' := b[..|b| - 1];
      assert (a + b)[..|a + b| - 1] == a + b';
      TextSizeConcat(a, b');
    }
  }

  /** Decoding one literal label `first`: copy it and continue after it. */
  lemma TakeLabel(p: seq<byte>, pos: nat, outPos: nat, hopsLeft: nat, jumpEnd: Option<nat>, acc: seq<Label>, first: Label)
    requires 0 < |first| < 64 && pos < |p| && p[pos] as nat == |first|
    requires StoredAt(p, pos + 1, first)
    requires outPos + |first| + 1 < NAME_CAPACITY
    ensures DecodeFrom(p, pos, outPos, hopsLeft, jumpEnd, acc)
         == DecodeFrom(p, pos + 1 + |first|, outPos + |first| + 1, hopsLeft, jumpEnd, acc + [first])
  {
    StoredAtSlice(p, pos + 1, first);
  }

  lemma EmptyConcat<T>(s: seq<T>)
    ensures [] + s == s
  {
  }

  /** A stored concatenation is its two parts stored one after the other. */
  lemma StoredSplit(p: seq<byte>, at: nat, a: seq<byte>, b: seq<byte>)
    requires StoredAt(p, at, a + b)
    ensures StoredAt(p, at, a) && StoredAt(p, at + |a|, b)
  {
    StoredAtSlice(p, at, a + b);
    StoredAtSlice(p, at, a);
    StoredAtSlice(p, at + |a|, b);
    assert p[at..at + |a|] == (a + b)[..|a|];
    assert p[at + |a|..at + |a| + |b|] == (a + b)[|a|..];
  }

  /** The encoding of a non-empty label list: a length byte, the first
      label, then the encoding of the rest. */
  lemma EncodeFirst(labels: seq<Label>)
    requires ValidLabels(labels) && labels != []
    ensures ValidLabels(labels[1..])
    ensures EncodeLabels(labels) == [|labels[0]| as byte] + (labels[0] + EncodeLabels(labels[1..]))
  {
    assert ValidLabels(labels[1..]) by {
      forall k | 0 <= k < |labels| - 1
        ensures 0 < |labels[1..][k]| < 64
      {
        assert labels[1..][k] == labels[k + 1];
      }
    }
  }

  /** A stored sequence starting with `b`: `b` at `pos`, then the rest. */
  lemma StoredCons(p: seq<byte>, pos: nat, b: byte, tail: seq<byte>)
    requires StoredAt(p, pos, [b] + tail)
    ensures pos < |p| && p[pos] == b && StoredAt(p, pos + 1, tail)
  {
    assert ([b] + tail)[1..] == tail;
  }

  /** The text of a non-empty label list: its first label, then the rest. */
  lemma TextSizeFirst(labels: seq<Label>)
    requires labels != []
    ensures TextSize(labels) == |labels[0]| + 1 + TextSize(labels[1..])
  {
    assert [labels[0]] + labels[1..] == labels;
    TextSizeConcat([labels[0]], labels[1..]);
    assert [labels[0]][..0] == [];
  }

  /** The first encoded label: its length byte, its bytes, then the rest. */
  lemma StoredFirstLabel(p: seq<byte>, pos: nat, labels: seq<Label>)
    requires ValidLabels(labels) && labels != [] && StoredAt(p, pos, EncodeLabels(labels))
    ensures ValidLabels(labels[1..])
    ensures pos < |p| && p[pos] as nat == |labels[0]|
    ensures StoredAt(p, pos + 1, labels[0])
    ensures StoredAt(p, pos + 1 + |labels[0]|, EncodeLabels(labels[1..]))
    ensures |EncodeLabels(labels)| == 1 + |labels[0]| + |EncodeLabels(labels[1..])|
    ensures TextSize(labels) == |labels[0]| + 1 + TextSize(labels[1..])
  {
    EncodeFirst(labels);
    StoredCons(p, pos, |labels[0]| as byte, labels[0] + EncodeLabels(labels[1..]));
    StoredSplit(p, pos + 1, labels[0], EncodeLabels(labels[1..]));
    TextSizeFirst(labels);
  }

  lemma AppendFirst(acc: seq<Label>, labels: seq<Label>)
    requires labels != []
    ensures acc + [labels[0]] + labels[1..] == acc + labels
  {
    assert [labels[0]] + labels[1..] == labels;
  }

  /** Reading encoded labels is a sequence of label steps: decoding continues
      at `after`, just past them, with their text appended (`outAfter` text
      bytes written). */
  lemma {:induction false} DecodeThroughLabels(p: seq<byte>, pos: nat, outPos: nat, hopsLeft: nat,
                                               jumpEnd: Option<nat>, acc: seq<Label>, labels: seq<Label>,
                                               after: nat, outAfter: nat)
    requires ValidLabels(labels) && StoredAt(p, pos, EncodeLabels(labels))
    requires after == pos + |EncodeLabels(labels)|
    requires outAfter == outPos + TextSize(labels) && outAfter < NAME_CAPACITY
    ensures DecodeFrom(p, pos, outPos, hopsLeft, jumpEnd, acc)
         == DecodeFrom(p, after, outAfter, hopsLeft, jumpEnd, acc + labels)
    decreases |labels|
  {
    if labels == [] {
      assert acc + labels == acc;
    } else {
      var first := labels[0];
      StoredFirstLabel(p, pos, labels);
      AppendFirst(acc, labels);
      TakeLabel(p, pos, outPos, hopsLeft, jumpEnd, acc, first);
      DecodeThroughLabels(p, pos + 1 + |first|, outPos + |first| + 1, hopsLeft, jumpEnd, acc + [first], labels[1..],
                          after, outAfter);
    }
  }

  /** A zero byte ends the name being decoded. */
  lemma TakeTerminator(p: seq<byte>, pos: nat, outPos: nat, hopsLeft: nat, jumpEnd: Option<nat>, acc: seq<Label>)
    requires StoredAt(p, pos, [0]) && outPos < NAME_CAPACITY
    ensures DecodeFrom(p, pos, outPos, hopsLeft, jumpEnd, acc)
         == Some(DecodedName(acc, if jumpEnd.Some? then jumpEnd.value else pos + 1))
  {
  }

  /** Following one compression pointer to `target`. */
  lemma TakePointer(p: seq<byte>, pos: nat, outPos: nat, hopsLeft: nat, jumpEnd: Option<nat>, acc: seq<Label>, target: nat)
    requires target < 0x4000 && StoredAt(p, pos, PointerBytes(target))
    requires outPos < NAME_CAPACITY && hopsLeft > 0
    ensures DecodeFrom(p, pos, outPos, hopsLeft, jumpEnd, acc)
         == DecodeFrom(p, target, outPos, hopsLeft - 1, if jumpEnd.Some? then jumpEnd else Some(pos + 2), acc)
  {
  }

  /** Encoded labels followed by a zero byte end the name being decoded. */
  lemma DecodeLabelsThenEnd(p: seq<byte>, pos: nat, outPos: nat, hopsLeft: nat, jumpEnd: Option<nat>,
                            acc: seq<Label>, labels: seq<Label>, last: nat, end: nat)
    requires ValidLabels(labels) && StoredAt(p, pos, EncodeLabels(labels))
    requires last == pos + |EncodeLabels(labels)| && StoredAt(p, last, [0])
    requires outPos + TextSize(labels) < NAME_CAPACITY
    requires end == if jumpEnd.Some? then jumpEnd.value else last + 1
    ensures DecodeFrom(p, pos, outPos, hopsLeft, jumpEnd, acc) == Some(DecodedName(acc + labels, end))
  {
    var outAfter := outPos + TextSize(labels);
    DecodeThroughLabels(p, pos, outPos, hopsLeft, jumpEnd, acc, labels, last, outAfter);
    TakeTerminator(p, last, outAfter, hopsLeft, jumpEnd, acc + labels);
  }

  /** A name is decoded from its first byte, with no text written, the whole
      hop budget and no pointer followed yet. */
  lemma DecodeNameIs(p: seq<byte>, at: nat, r: Option<DecodedName>)
    requires DecodeFrom(p, at, 0, |p|, None, []) == r
    ensures DecodeName(p, at) == r
  {
  }

  /** Round trip: an uncompressed name decodes to its labels and ends just
      after its terminator. */
  lemma DecodeEncodedName(p: seq<byte>, at: nat, labels: seq<Label>)
    requires ValidLabels(labels) && StoredAt(p, at, EncodeName(labels))
    requires TextSize(labels) < NAME_CAPACITY
    ensures DecodeName(p, at) == Some(DecodedName(labels, at + |EncodeName(labels)|))
  {
    StoredSplit(p, at, EncodeLabels(labels), [0]);
    DecodeSplitName(p, at, labels, at + |EncodeLabels(labels)|, at + |EncodeName(labels)|);
  }

  lemma DecodeSplitName(p: seq<byte>, at: nat, labels: seq<Label>, last: nat, end: nat)
    requires ValidLabels(labels) && StoredAt(p, at, EncodeLabels(labels))
    requires last == at + |EncodeLabels(labels)| && StoredAt(p, last, [0])
    requires TextSize(labels) < NAME_CAPACITY && end == last + 1
    ensures DecodeName(p, at) == Some(DecodedName(labels, end))
  {
    DecodeLabelsThenEnd(p, at, 0, |p|, None, [], labels, last, end);
    EmptyConcat(labels);
    DecodeNameIs(p, at, Some(DecodedName(labels, end)));
  }

  /** Encoded labels followed by a compression pointer: decoding continues
      at the pointer's target with the labels' text appended. */
  lemma DecodeLabelsThenPointer(p: seq<byte>, pos: nat, outPos: nat, hopsLeft: nat, jumpEnd: Option<nat>,
                                acc: seq<Label>, labels: seq<Label>, target: nat, ptr: nat, jump: Option<nat>,
                                resume: nat)
    requires ValidLabels(labels) && StoredAt(p, pos, EncodeLabels(labels))
    requires target < 0x4000 && ptr == pos + |EncodeLabels(labels)| && StoredAt(p, ptr, PointerBytes(target))
    requires resume == outPos + TextSize(labels) && resume < NAME_CAPACITY && hopsLeft > 0
    requires jump == if jumpEnd.Some? then jumpEnd else Some(ptr + 2)
    ensures DecodeFrom(p, pos, outPos, hopsLeft, jumpEnd, acc)
         == DecodeFrom(p, target, resume, hopsLeft - 1, jump, acc + labels)
  {
    DecodeThroughLabels(p, pos, outPos, hopsLeft, jumpEnd, acc, labels, ptr, resume);
    TakePointer(p, ptr, resume, hopsLeft, jumpEnd, acc + labels, target);
  }

  /** Encoded labels, a pointer, and at its target encoded labels then a
      zero byte: decoding yields both groups of labels and ends after the
      pointer. */
  lemma DecodeAcrossPointer(p: seq<byte>, pos: nat, outPos: nat, hopsLeft: nat, acc: seq<Label>,
                            prefix: seq<Label>, target: nat, ptr: nat, suffix: seq<Label>, last: nat,
                            whole: seq<Label>, end: nat)
    requires ValidLabels(prefix) && StoredAt(p, pos, EncodeLabels(prefix))
    requires target < 0x4000 && ptr == pos + |EncodeLabels(prefix)| && StoredAt(p, ptr, PointerBytes(target))
    requires ValidLabels(suffix) && StoredAt(p, target, EncodeLabels(suffix))
    requires last == target + |EncodeLabels(suffix)| && StoredAt(p, last, [0])
    requires outPos + TextSize(prefix) + TextSize(suffix) < NAME_CAPACITY && hopsLeft > 0
    requires whole == acc + prefix + suffix && end == ptr + 2
    ensures DecodeFrom(p, pos, outPos, hopsLeft, None, acc) == Some(DecodedName(whole, end))
  {
    var jump: Option<nat> := Some(ptr + 2);
    var resume := outPos + TextSize(prefix);
    var middle := DecodeFrom(p, target, resume, hopsLeft - 1, jump, acc + prefix);
    DecodeLabelsThenPointer(p, pos, outPos, hopsLeft, None, acc, prefix, target, ptr, jump, resume);
    DecodeLabelsThenEnd(p, target, resume, hopsLeft - 1, jump, acc + prefix, suffix, last, end);
    assert middle == Some(DecodedName(whole, end));
  }

  /** A name written as labels `prefix` then a pointer to an encoded `suffix`
      decodes to the same labels as `prefix + suffix` written out in full,
      and ends two bytes after the pointer, whatever the pointer's target. */
  lemma DecodeCompressedName(p: seq<byte>, at: nat, prefix: seq<Label>, target: nat, suffix: seq<Label>)
    requires ValidLabels(prefix) && ValidLabels(suffix) && target < 0x4000
    requires StoredAt(p, at, EncodeLabels(prefix) + PointerBytes(target))
    requires StoredAt(p, target, EncodeName(suffix))
    requires TextSize(prefix + suffix) < NAME_CAPACITY
    ensures DecodeName(p, at) == Some(DecodedName(prefix + suffix, at + |EncodeLabels(prefix)| + 2))
  {
    TextSizeConcat(prefix, suffix);
    StoredSplit(p, at, EncodeLabels(prefix), PointerBytes(target));
    StoredSplit(p, target, EncodeLabels(suffix), [0]);
    DecodeSplitCompressedName(p, at, prefix, target, suffix, at + |EncodeLabels(prefix)|,
                              target + |EncodeLabels(suffix)|, at + |EncodeLabels(prefix)| + 2);
  }

  lemma DecodeSplitCompressedName(p: seq<byte>, at: nat, prefix: seq<Label>, target: nat, suffix: seq<Label>,
                                  ptr: nat, last: nat, end: nat)
    requires ValidLabels(prefix) && StoredAt(p, at, EncodeLabels(prefix))
    requires target < 0x4000 && ptr == at + |EncodeLabels(prefix)| && StoredAt(p, ptr, PointerBytes(target))
    requires ValidLabels(suffix) && StoredAt(p, target, EncodeLabels(suffix))
    requires last == target + |EncodeLabels(suffix)| && StoredAt(p, last, [0])
    requires TextSize(prefix) + TextSize(suffix) < NAME_CAPACITY && end == ptr + 2
    ensures DecodeName(p, at) == Some(DecodedName(prefix + suffix, end))
  {
    EmptyConcat(prefix);
    DecodeAcrossPointer(p, at, 0, |p|, [], prefix, target, ptr, suffix, last, prefix + suffix, end);
    DecodeNameIs(p, at, Some(DecodedName(prefix + suffix, end)));
  }

  /** Position `i` holds a pointer whose target is in `s`. */
  predicate PointsInto(p: seq<byte>, s: set<nat>, i: nat)
  {
    i + 1 < |p| && IsPointer(p[i]) && PointerTarget(p[i], p[i + 1]) in s
  }

  /** Positions in `s` all hold pointers whose targets are again in `s`. */
  predicate PointerCycle(p: seq<byte>, s: set<nat>)
  {
    forall i {:trigger PointsInto(p, s, i)} | i in s :: PointsInto(p, s, i)
  }

  lemma {:induction false} DecodeFromCycleFails(p: seq<byte>, s: set<nat>, pos: nat, outPos: nat,
                                                hopsLeft: nat, jumpEnd: Option<nat>, acc: seq<Label>)
    requires PointerCycle(p, s) && pos in s && outPos < NAME_CAPACITY
    ensures DecodeFrom(p, pos, outPos, hopsLeft, jumpEnd, acc) == None
    decreases hopsLeft
  {
    assert PointsInto(p, s, pos);
    if hopsLeft > 0 {
      DecodeFromCycleFails(p, s, PointerTarget(p[pos], p[pos + 1]), outPos, hopsLeft - 1,
                           if jumpEnd.Some? then jumpEnd else Some(pos + 2), acc);
    }
  }

  /** Decoding a name that enters a cycle of pointers fails after the hop
      bound instead of looping; a pointer to itself is the smallest cycle. */
  lemma PointerCycleFails(p: seq<byte>, s: set<nat>, offset: nat)
    requires PointerCycle(p, s) && offset in s
    ensures DecodeName(p, offset) == None
  {
    DecodeFromCycleFails(p, s, offset, 0, |p|, None, []);
  }

  lemma SelfPointerFails(p: seq<byte>, offset: nat)
    requires offset < 0x4000 && StoredAt(p, offset, PointerBytes(offset))
    ensures DecodeName(p, offset) == None
  {
    assert p[offset] == PointerBytes(offset)[0] && p[offset + 1] == PointerBytes(offset)[1];
    assert PointsInto(p, {offset}, offset);
    PointerCycleFails(p, {offset}, offset);
  }

  /** The positions `lo .. hi - 1`. */
  function Span(lo: nat, hi: nat): (r: set<nat>)
    ensures forall i :: i in r <==> lo <= i < hi
    decreases hi - lo
  {
    if lo >= hi then {} else {lo} + Span(lo + 1, hi)
  }

  /** The positions of `p` that decoding from `pos` reads. */
  ghost function ReadsFrom(p: seq<byte>, pos: nat, outPos: nat, hopsLeft: nat): set<nat>
    requires outPos < NAME_CAPACITY
    decreases hopsLeft, NAME_CAPACITY - outPos
  {
    if pos >= |p| then {}
    else if p[pos] == 0 then {pos}
    else if IsPointer(p[pos]) then
      if pos + 1 >= |p| then {pos}
      else if hopsLeft == 0 then {pos, pos + 1}
      else {pos, pos + 1} + ReadsFrom(p, PointerTarget(p[pos], p[pos + 1]), outPos, hopsLeft - 1)
    else
      var len := p[pos] as nat;
      if outPos + len + 1 >= NAME_CAPACITY || pos + 1 + len > |p| then {pos}
      else {pos} + Span(pos + 1, pos + 1 + len) + ReadsFrom(p, pos + 1 + len, outPos + len + 1, hopsLeft)
  }

  /** The positions of `p` that decoding the name at `offset` reads. */
  ghost function NameReads(p: seq<byte>, offset: nat): set<nat>
  {
    ReadsFrom(p, offset, 0, |p|)
  }

  /** `p` and `q` have the same length and the same bytes at the positions in `s`. */
  ghost predicate AgreeOn(p: seq<byte>, q: seq<byte>, s: set<nat>)
  {
    |p| == |q| && forall i | i in s && i < |p| :: p[i] == q[i]
  }

  lemma AgreeOnSubset(p: seq<byte>, q: seq<byte>, s: set<nat>, t: set<nat>)
    requires AgreeOn(p, q, s) && t <= s
    ensures AgreeOn(p, q, t)
  {
  }

  /** A pointer step reads the pointer's two bytes and what is read from its target. */
  lemma PointerReads(p: seq<byte>, pos: nat, outPos: nat, hopsLeft: nat, target: nat)
    requires outPos < NAME_CAPACITY && pos + 1 < |p| && IsPointer(p[pos]) && hopsLeft > 0
    requires target == PointerTarget(p[pos], p[pos + 1])
    ensures var footprint := ReadsFrom(p, pos, outPos, hopsLeft);
      pos in footprint && pos + 1 in footprint && ReadsFrom(p, target, outPos, hopsLeft - 1) <= footprint
  {
  }

  lemma PointerDecodeStep(p: seq<byte>, pos: nat, outPos: nat, hopsLeft: nat, jumpEnd: Option<nat>, acc: seq<Label>,
                          target: nat, jump: Option<nat>)
    requires outPos < NAME_CAPACITY && pos + 1 < |p| && IsPointer(p[pos]) && hopsLeft > 0
    requires target == PointerTarget(p[pos], p[pos + 1]) && jump == if jumpEnd.Some? then jumpEnd else Some(pos + 2)
    ensures DecodeFrom(p, pos, outPos, hopsLeft, jumpEnd, acc) == DecodeFrom(p, target, outPos, hopsLeft - 1, jump, acc)
  {
  }

  lemma LabelDecodeStep(p: seq<byte>, pos: nat, outPos: nat, hopsLeft: nat, jumpEnd: Option<nat>, acc: seq<Label>,
                        len: nat, segment: Label)
    requires pos < |p| && p[pos] != 0 && !IsPointer(p[pos]) && len == p[pos] as nat
    requires outPos + len + 1 < NAME_CAPACITY && pos + 1 + len <= |p| && segment == p[pos + 1..pos + 1 + len]
    ensures DecodeFrom(p, pos, outPos, hopsLeft, jumpEnd, acc)
         == DecodeFrom(p, pos + 1 + len, outPos + len + 1, hopsLeft, jumpEnd, acc + [segment])
  {
  }

  /** A label step reads the length byte, the label's bytes and what is read after them. */
  lemma LabelReads(p: seq<byte>, pos: nat, outPos: nat, hopsLeft: nat, len: nat)
    requires pos < |p| && p[pos] != 0 && !IsPointer(p[pos]) && len == p[pos] as nat
    requires outPos + len + 1 < NAME_CAPACITY && pos + 1 + len <= |p|
    ensures var footprint := ReadsFrom(p, pos, outPos, hopsLeft);
      Span(pos + 1, pos + 1 + len) <= footprint && ReadsFrom(p, pos + 1 + len, outPos + len + 1, hopsLeft) <= footprint
  {
  }

  /** A label that overruns the buffer or the packet fails the decoding. */
  lemma LabelFails(p: seq<byte>, pos: nat, outPos: nat, hopsLeft: nat, jumpEnd: Option<nat>, acc: seq<Label>)
    requires outPos < NAME_CAPACITY && pos < |p| && p[pos] != 0 && !IsPointer(p[pos])
    requires outPos + p[pos] as nat + 1 >= NAME_CAPACITY || pos + 1 + p[pos] as nat > |p|
    ensures DecodeFrom(p, pos, outPos, hopsLeft, jumpEnd, acc) == None
  {
  }

  /** Bytes agreeing on a span give equal slices over it. */
  lemma AgreeSlice(p: seq<byte>, q: seq<byte>, s: set<nat>, lo: nat, hi: nat)
    requires AgreeOn(p, q, s) && Span(lo, hi) <= s && lo <= hi <= |p|
    ensures q[lo..hi] == p[lo..hi]
  {
    forall i | lo <= i < hi
      ensures q[i] == p[i]
    {
      assert i in Span(lo, hi);
    }
  }

  lemma {:induction false} DecodeFromAgrees(p: seq<byte>, q: seq<byte>, pos: nat, outPos: nat,
                                            hopsLeft: nat, jumpEnd: Option<nat>, acc: seq<Label>)
    requires outPos < NAME_CAPACITY
    requires AgreeOn(p, q, ReadsFrom(p, pos, outPos, hopsLeft))
    ensures DecodeFrom(q, pos, outPos, hopsLeft, jumpEnd, acc) == DecodeFrom(p, pos, outPos, hopsLeft, jumpEnd, acc)
    decreases hopsLeft, NAME_CAPACITY - outPos, 1
  {
    if pos < |p| {
      assert pos in ReadsFrom(p, pos, outPos, hopsLeft);
      if IsPointer(p[pos]) {
        PointerAgrees(p, q, pos, outPos, hopsLeft, jumpEnd, acc);
      } else if p[pos] != 0 {
        LabelAgrees(p, q, pos, outPos, hopsLeft, jumpEnd, acc);
      }
    }
  }

  lemma {:induction false} PointerAgrees(p: seq<byte>, q: seq<byte>, pos: nat, outPos: nat,
                                         hopsLeft: nat, jumpEnd: Option<nat>, acc: seq<Label>)
    requires outPos < NAME_CAPACITY && pos < |p| && IsPointer(p[pos])
    requires AgreeOn(p, q, ReadsFrom(p, pos, outPos, hopsLeft))
    ensures DecodeFrom(q, pos, outPos, hopsLeft, jumpEnd, acc) == DecodeFrom(p, pos, outPos, hopsLeft, jumpEnd, acc)
    decreases hopsLeft, NAME_CAPACITY - outPos, 0
  {
    var footprint := ReadsFrom(p, pos, outPos, hopsLeft);
    assert pos in footprint;
    if pos + 1 < |p| && hopsLeft > 0 {
      var target := PointerTarget(p[pos], p[pos + 1]);
      var jump := if jumpEnd.Some? then jumpEnd else Some(pos + 2);
      PointerReads(p, pos, outPos, hopsLeft, target);
      PointerDecodeStep(p, pos, outPos, hopsLeft, jumpEnd, acc, target, jump);
      PointerDecodeStep(q, pos, outPos, hopsLeft, jumpEnd, acc, target, jump);
      AgreeOnSubset(p, q, footprint, ReadsFrom(p, target, outPos, hopsLeft - 1));
      DecodeFromAgrees(p, q, target, outPos, hopsLeft - 1, jump, acc);
    }
  }

  lemma {:induction false} LabelAgrees(p: seq<byte>, q: seq<byte>, pos: nat, outPos: nat,
                                       hopsLeft: nat, jumpEnd: Option<nat>, acc: seq<Label>)
    requires outPos < NAME_CAPACITY && pos < |p| && p[pos] != 0 && !IsPointer(p[pos])
    requires AgreeOn(p, q, ReadsFrom(p, pos, outPos, hopsLeft))
    ensures DecodeFrom(q, pos, outPos, hopsLeft, jumpEnd, acc) == DecodeFrom(p, pos, outPos, hopsLeft, jumpEnd, acc)
    decreases hopsLeft, NAME_CAPACITY - outPos, 0
  {
    assert pos in ReadsFrom(p, pos, outPos, hopsLeft);
    assert q[pos] == p[pos];
    var len := p[pos] as nat;
    if outPos + len + 1 < NAME_CAPACITY && pos + 1 + len <= |p| {
      var segment := p[pos + 1..pos + 1 + len];
      LabelStepAgrees(p, q, pos, outPos, hopsLeft, jumpEnd, acc, len, segment);
      DecodeFromAgrees(p, q, pos + 1 + len, outPos + len + 1, hopsLeft, jumpEnd, acc + [segment]);
    } else {
      LabelFailsBoth(p, q, pos, outPos, hopsLeft, jumpEnd, acc);
    }
  }

  /** A label that fails the decoding of `p` fails it on a `q` of the same
      length with the same length byte. */
  lemma LabelFailsBoth(p: seq<byte>, q: seq<byte>, pos: nat, outPos: nat, hopsLeft: nat, jumpEnd: Option<nat>, acc: seq<Label>)
    requires outPos < NAME_CAPACITY && pos < |p| == |q| && q[pos] == p[pos] && p[pos] != 0 && !IsPointer(p[pos])
    requires outPos + p[pos] as nat + 1 >= NAME_CAPACITY || pos + 1 + p[pos] as nat > |p|
    ensures DecodeFrom(q, pos, outPos, hopsLeft, jumpEnd, acc) == None
    ensures DecodeFrom(p, pos, outPos, hopsLeft, jumpEnd, acc) == None
  {
    LabelFails(p, pos, outPos, hopsLeft, jumpEnd, acc);
    LabelFails(q, pos, outPos, hopsLeft, jumpEnd, acc);
  }

  /** One label step taken on `p` and on a `q` that agrees with `p` on what
      the decoding reads: both reach the same state, and they still agree on
      what is read from there. */
  lemma LabelStepAgrees(p: seq<byte>, q: seq<byte>, pos: nat, outPos: nat, hopsLeft: nat, jumpEnd: Option<nat>,
                        acc: seq<Label>, len: nat, segment: Label)
    requires outPos < NAME_CAPACITY && AgreeOn(p, q, ReadsFrom(p, pos, outPos, hopsLeft))
    requires pos < |p| && p[pos] != 0 && !IsPointer(p[pos]) && len == p[pos] as nat && q[pos] == p[pos]
    requires outPos + len + 1 < NAME_CAPACITY && pos + 1 + len <= |p| && segment == p[pos + 1..pos + 1 + len]
    ensures AgreeOn(p, q, ReadsFrom(p, pos + 1 + len, outPos + len + 1, hopsLeft))
    ensures DecodeFrom(p, pos, outPos, hopsLeft, jumpEnd, acc)
         == DecodeFrom(p, pos + 1 + len, outPos + len + 1, hopsLeft, jumpEnd, acc + [segment])
    ensures DecodeFrom(q, pos, outPos, hopsLeft, jumpEnd, acc)
         == DecodeFrom(q, pos + 1 + len, outPos + len + 1, hopsLeft, jumpEnd, acc + [segment])
  {
    var footprint := ReadsFrom(p, pos, outPos, hopsLeft);
    LabelReads(p, pos, outPos, hopsLeft, len);
    AgreeSlice(p, q, footprint, pos + 1, pos + 1 + len);
    LabelDecodeStep(p, pos, outPos, hopsLeft, jumpEnd, acc, len, segment);
    LabelDecodeStep(q, pos, outPos, hopsLeft, jumpEnd, acc, len, segment);
    AgreeOnSubset(p, q, footprint, ReadsFrom(p, pos + 1 + len, outPos + len + 1, hopsLeft));
  }

  /** Decoding a name depends only on the bytes it reads: a buffer of the
      same length that agrees there decodes the same name. */
  lemma DecodeNameAgrees(p: seq<byte>, q: seq<byte>, offset: nat)
    requires AgreeOn(p, q, NameReads(p, offset))
    ensures DecodeName(q, offset) == DecodeName(p, offset)
  {
    DecodeFromAgrees(p, q, offset, 0, |p|, None, []);
  }
}

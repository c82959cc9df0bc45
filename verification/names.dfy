/** Decoding of one domain name in DNS wire format (section 3.1 of RFC 1035):
    length-prefixed labels ending in a zero byte, with 14-bit compression
    pointers (section 4.1.4 of RFC 1035) that redirect decoding elsewhere in
    the same message.

    The decoder follows packet-rewrite.h's read_dns_name, with the reads it
    leaves unchecked made fail-closed, and with two bounds that make it
    terminate on every input: the assembled text must fit the 1024-byte
    output buffer every caller passes, and at most |packet| pointers are
    followed. */
module Names {
  import opened Wire

  /** One label of a name, without its length byte. */
  type Label = seq<byte>

  /** Size of the output buffer every caller hands to the decoder. */
  const NAME_CAPACITY: nat := 1024

  /** A decoded name: its labels, and the offset just after its on-wire form. */
  datatype DecodedName = DecodedName(labels: seq<Label>, end: nat)

  /** Number of text bytes the decoder has written for `labels`: each label
      followed by one separator. */
  function TextSize(labels: seq<Label>): nat
  {
    if labels == [] then 0
    else TextSize(labels[..|labels| - 1]) + |labels[|labels| - 1]| + 1
  }

  /** A length byte whose two top bits are set (`b & 0xC0 == 0xC0`, that is
      b >= 0xC0) starts a compression pointer. */
  predicate IsPointer(b: byte)
  {
    b >= 0xC0
  }

  /** The 14-bit offset that a pointer made of bytes `hi` and `lo` designates:
      the six low bits of `hi` (`hi & 0x3F`, that is hi - 0xC0) then `lo`. */
  function PointerTarget(hi: byte, lo: byte): (t: nat)
    requires IsPointer(hi)
    ensures t < 0x4000
  {
    (hi as nat - 0xC0) * 256 + lo as nat
  }

  /** Decoding resumed at `pos` with `outPos` text bytes written so far,
      `hopsLeft` pointers still allowed, `jumpEnd` the offset just after the
      first pointer followed (if any) and `acc` the labels read so far. */
  function DecodeFrom(p: seq<byte>, pos: nat, outPos: nat, hopsLeft: nat, jumpEnd: Option<nat>, acc: seq<Label>): (r: Option<DecodedName>)
    requires outPos < NAME_CAPACITY
    ensures r.Some? ==> pos < |p| && |acc| <= |r.value.labels|
    decreases hopsLeft, NAME_CAPACITY - outPos
  {
    if pos >= |p| then None
    else if p[pos] == 0 then
      Some(DecodedName(acc, if jumpEnd.Some? then jumpEnd.value else pos + 1))
    else if IsPointer(p[pos]) then
      if pos + 1 >= |p| || hopsLeft == 0 then None
      else
        DecodeFrom(p, PointerTarget(p[pos], p[pos + 1]), outPos, hopsLeft - 1,
                   if jumpEnd.Some? then jumpEnd else Some(pos + 2), acc)
    else
      var len := p[pos] as nat;
      if outPos + len + 1 >= NAME_CAPACITY then None
      else if pos + 1 + len > |p| then None
      else DecodeFrom(p, pos + 1 + len, outPos + len + 1, hopsLeft, jumpEnd, acc + [p[pos + 1..pos + 1 + len]])
  }

  /** Where a successful decoding ends: inside the packet, at the offset
      after the first pointer followed when there is one (so two bytes after
      a pointer met first, whatever redirections follow), and otherwise
      after the position it resumed from. */
  lemma {:induction false} DecodeFromEnd(p: seq<byte>, pos: nat, outPos: nat, hopsLeft: nat, jumpEnd: Option<nat>, acc: seq<Label>)
    requires outPos < NAME_CAPACITY
    requires jumpEnd.Some? ==> jumpEnd.value <= |p|
    ensures var r := DecodeFrom(p, pos, outPos, hopsLeft, jumpEnd, acc);
      r.Some? ==>
        && r.value.end <= |p|
        && (jumpEnd.Some? ==> r.value.end == jumpEnd.value)
        && (jumpEnd.None? ==> pos < r.value.end)
        && (jumpEnd.None? && pos < |p| && IsPointer(p[pos]) ==> r.value.end == pos + 2)
    decreases hopsLeft, NAME_CAPACITY - outPos
  {
    if pos >= |p| || p[pos] == 0 {
    } else if IsPointer(p[pos]) {
      if pos + 1 < |p| && hopsLeft > 0 {
        var target := PointerTarget(p[pos], p[pos + 1]);
        var jump := if jumpEnd.Some? then jumpEnd else Some(pos + 2);
        assert DecodeFrom(p, pos, outPos, hopsLeft, jumpEnd, acc) == DecodeFrom(p, target, outPos, hopsLeft - 1, jump, acc);
        DecodeFromEnd(p, target, outPos, hopsLeft - 1, jump, acc);
      }
    } else {
      var len := p[pos] as nat;
      if outPos + len + 1 < NAME_CAPACITY && pos + 1 + len <= |p| {
        var acc' := acc + [p[pos + 1..pos + 1 + len]];
        assert DecodeFrom(p, pos, outPos, hopsLeft, jumpEnd, acc) == DecodeFrom(p, pos + 1 + len, outPos + len + 1, hopsLeft, jumpEnd, acc');
        DecodeFromEnd(p, pos + 1 + len, outPos + len + 1, hopsLeft, jumpEnd, acc');
      }
    }
  }

  /** A decoding keeps the labels already gathered and appends the rest
      after them. */
  lemma {:induction false} DecodeFromExtends(p: seq<byte>, pos: nat, outPos: nat, hopsLeft: nat, jumpEnd: Option<nat>, acc: seq<Label>)
    requires outPos < NAME_CAPACITY
    ensures var r := DecodeFrom(p, pos, outPos, hopsLeft, jumpEnd, acc);
      r.Some? ==> r.value.labels[..|acc|] == acc
    decreases hopsLeft, NAME_CAPACITY - outPos
  {
    if pos >= |p| || p[pos] == 0 {
    } else if IsPointer(p[pos]) {
      if pos + 1 < |p| && hopsLeft > 0 {
        DecodeFromExtends(p, PointerTarget(p[pos], p[pos + 1]), outPos, hopsLeft - 1,
                          if jumpEnd.Some? then jumpEnd else Some(pos + 2), acc);
      }
    } else {
      var len := p[pos] as nat;
      if outPos + len + 1 < NAME_CAPACITY && pos + 1 + len <= |p| {
        var acc' := acc + [p[pos + 1..pos + 1 + len]];
        DecodeFromExtends(p, pos + 1 + len, outPos + len + 1, hopsLeft, jumpEnd, acc');
        var r := DecodeFrom(p, pos + 1 + len, outPos + len + 1, hopsLeft, jumpEnd, acc');
        if r.Some? {
          assert r.value.labels[..|acc|] == r.value.labels[..|acc'|][..|acc|];
          assert acc'[..|acc|] == acc;
        }
      }
    }
  }

  /** When `outPos` counts the text of `acc`, a successful decoding's text
      (its labels with their separators) fits the output buffer. */
  lemma {:induction false} DecodeFromFits(p: seq<byte>, pos: nat, outPos: nat, hopsLeft: nat, jumpEnd: Option<nat>, acc: seq<Label>)
    requires outPos < NAME_CAPACITY && outPos == TextSize(acc)
    ensures var r := DecodeFrom(p, pos, outPos, hopsLeft, jumpEnd, acc);
      r.Some? ==> TextSize(r.value.labels) < NAME_CAPACITY
    decreases hopsLeft, NAME_CAPACITY - outPos
  {
    if pos >= |p| || p[pos] == 0 {
    } else if IsPointer(p[pos]) {
      if pos + 1 < |p| && hopsLeft > 0 {
        DecodeFromFits(p, PointerTarget(p[pos], p[pos + 1]), outPos, hopsLeft - 1,
                       if jumpEnd.Some? then jumpEnd else Some(pos + 2), acc);
      }
    } else {
      var len := p[pos] as nat;
      if outPos + len + 1 < NAME_CAPACITY && pos + 1 + len <= |p| {
        var segment := p[pos + 1..pos + 1 + len];
        assert (acc + [segment])[..|acc|] == acc;
        DecodeFromFits(p, pos + 1 + len, outPos + len + 1, hopsLeft, jumpEnd, acc + [segment]);
      }
    }
  }

  /** The name starting at `offset`, or None when it is malformed. */
  function DecodeName(p: seq<byte>, offset: nat): (r: Option<DecodedName>)
    ensures offset >= |p| ==> r.None?
    ensures r.Some? ==> offset < r.value.end <= |p|
    ensures r.Some? ==> TextSize(r.value.labels) < NAME_CAPACITY
    ensures offset < |p| && p[offset] == 0 ==> r == Some(DecodedName([], offset + 1))
    ensures offset < |p| && IsPointer(p[offset]) && r.Some? ==> r.value.end == offset + 2
  {
    DecodeFromEnd(p, offset, 0, |p|, None, []);
    DecodeFromFits(p, offset, 0, |p|, None, []);
    DecodeFrom(p, offset, 0, |p|, None, [])
  }

  /** The decoding loop of read_dns_name over the packet buffer. */
  method ReadName(packet: array<byte>, offset: nat) returns (r: Option<DecodedName>)
    ensures r == DecodeName(packet[..], offset)
  {
    ghost var p := packet[..];
    ghost var goal := DecodeFrom(p, offset, 0, |p|, None, []);
    var pos: nat := offset;
    var outPos: nat := 0;
    var hopsLeft: nat := packet.Length;
    var jumpEnd: Option<nat> := None;
    var labels: seq<Label> := [];
    while pos < packet.Length
      invariant outPos < NAME_CAPACITY
      invariant DecodeFrom(p, pos, outPos, hopsLeft, jumpEnd, labels) == goal
      decreases hopsLeft, NAME_CAPACITY - outPos
    {
      var len := packet[pos];
      assert len == p[pos];
      if len == 0 {
        var end := if jumpEnd.Some? then jumpEnd.value else pos + 1;
        return Some(DecodedName(labels, end));
      }
      if IsPointer(len) {
        if pos + 1 >= packet.Length || hopsLeft == 0 {
          return None;
        }
        var target := PointerTarget(len, packet[pos + 1]);
        assert target == PointerTarget(p[pos], p[pos + 1]);
        if jumpEnd.None? {
          jumpEnd := Some(pos + 2);
        }
        pos := target;
        hopsLeft := hopsLeft - 1;
      } else {
        var n := len as nat;
        if outPos + n + 1 >= NAME_CAPACITY || pos + 1 + n > packet.Length {
          return None;
        }
        var segment := packet[pos + 1..pos + 1 + n];
        assert segment == p[pos + 1..pos + 1 + n];
        labels := labels + [segment];
        outPos := outPos + n + 1;
        pos := pos + 1 + n;
      }
    }
    return None;
  }
}

/** Behaviour of packet-rewrite.h as written that the rest of the model
    deliberately does not follow, each shown on an input, next to the
    behaviour the model gives instead. */
module Findings {
  import opened Wire
  import opened Names
  import opened NameProperties
  import opened Sections
  import opened Questions
  import opened Records
  import opened RecordLayout

  // ---------------------------------------------------------------------
  // read_dns_name follows pointers without bound.

  /** The variables of read_dns_name's loop: the read position, the text
      bytes written, whether a pointer has been followed, and the offset
      after the first pointer. */
  datatype NameLoop = NameLoop(pos: nat, outPos: nat, jumped: bool, jumpPos: nat)

  /** One turn of read_dns_name's loop as written; None when the turn leaves
      the loop (the terminator, or the text buffer full). The pointer turn
      reads the byte after the length byte without checking it is inside
      the datagram, so that byte is required here. */
  function SourceNameTurn(p: seq<byte>, st: NameLoop): (next: Option<NameLoop>)
    requires st.pos < |p| && (IsPointer(p[st.pos]) ==> st.pos + 1 < |p|)
    ensures next.Some? && IsPointer(p[st.pos]) ==> next.value.jumped && next.value.outPos == st.outPos
    ensures next.Some? && !IsPointer(p[st.pos]) ==> st.outPos < next.value.outPos < NAME_CAPACITY
  {
    var len := p[st.pos];
    if len == 0 then None
    else if IsPointer(len) then
      Some(NameLoop(PointerTarget(len, p[st.pos + 1]), st.outPos, true, if st.jumped then st.jumpPos else st.pos + 2))
    else if st.outPos + len as nat + 1 >= NAME_CAPACITY then None
    else Some(NameLoop(st.pos + 1 + len as nat, st.outPos + len as nat + 1, st.jumped, st.jumpPos))
  }

  /** `n` turns of the loop as written from `st`; None once the loop has
      left, or its guard fails, or a pointer's second byte lies outside the
      datagram (the source reads it regardless). */
  function SourceNameTurns(p: seq<byte>, st: NameLoop, n: nat): Option<NameLoop>
    decreases n
  {
    if n == 0 then Some(st)
    else if st.pos >= |p| || (IsPointer(p[st.pos]) && st.pos + 1 >= |p|) then None
    else
      match SourceNameTurn(p, st)
      case None => None
      case Some(t) => SourceNameTurns(p, t, n - 1)
  }

  /** Once a self-pointer at `at` has been followed, every turn of the loop
      as written comes back to the same state. */
  lemma {:induction false} SelfPointerStays(p: seq<byte>, at: nat, n: nat)
    requires at < 0x4000 && StoredAt(p, at, PointerBytes(at))
    ensures SourceNameTurns(p, NameLoop(at, 0, true, at + 2), n) == Some(NameLoop(at, 0, true, at + 2))
    decreases n
  {
    if n > 0 {
      assert p[at] == PointerBytes(at)[0] && p[at + 1] == PointerBytes(at)[1];
      SelfPointerStays(p, at, n - 1);
    }
  }

  /** A name made of a pointer to itself keeps read_dns_name as written
      looping: after any number of turns it is still inside the loop, at
      the same position, with nothing written. */
  lemma SelfPointerNeverExits(p: seq<byte>, at: nat, n: nat)
    requires at < 0x4000 && StoredAt(p, at, PointerBytes(at))
    ensures SourceNameTurns(p, NameLoop(at, 0, false, 0), n + 1) == Some(NameLoop(at, 0, true, at + 2))
  {
    assert p[at] == PointerBytes(at)[0] && p[at + 1] == PointerBytes(at)[1];
    assert SourceNameTurn(p, NameLoop(at, 0, false, 0)) == Some(NameLoop(at, 0, true, at + 2));
    SelfPointerStays(p, at, n);
  }

  // ---------------------------------------------------------------------
  // A name that gives up leaves the question cursor at 4.

  /** Encoded labels whose text (with separators) does not fit the decoder's
      buffer make the decoding give up, whatever follows them. */
  lemma {:induction false} LongLabelsFail(p: seq<byte>, pos: nat, outPos: nat, hopsLeft: nat,
                                           jumpEnd: Option<nat>, acc: seq<Label>, labels: seq<Label>)
    requires ValidLabels(labels) && StoredAt(p, pos, EncodeLabels(labels))
    requires outPos < NAME_CAPACITY <= outPos + TextSize(labels)
    ensures DecodeFrom(p, pos, outPos, hopsLeft, jumpEnd, acc) == None
    decreases labels
  {
    if labels == [] {
      assert false;
    } else {
      StoredFirstLabel(p, pos, labels);
      var len := |labels[0]|;
      if outPos + len + 1 < NAME_CAPACITY {
        StoredAtSlice(p, pos + 1, labels[0]);
        assert p[pos + 1..pos + 1 + len] == labels[0];
        LongLabelsFail(p, pos + 1 + len, outPos + len + 1, hopsLeft, jumpEnd, acc + [labels[0]], labels[1..]);
      }
    }
  }

  /** A stored name whose text needs 1024 bytes or more does not decode. */
  lemma LongNameFails(p: seq<byte>, at: nat, labels: seq<Label>)
    requires ValidLabels(labels) && StoredAt(p, at, EncodeLabels(labels))
    requires NAME_CAPACITY <= TextSize(labels)
    ensures DecodeName(p, at) == None
  {
    LongLabelsFail(p, at, 0, |p|, None, [], labels);
  }

  /** The cursor scan_questions sets after one question as written: the
      name's end plus QTYPE and QCLASS, where a decoder that gave up has
      left the end at its initial 0. */
  function SourceQuestionCursor(decoded: Option<DecodedName>): (c: nat)
    ensures decoded.None? ==> c == QUESTION_FIXED
    ensures decoded.Some? ==> c == decoded.value.end + QUESTION_FIXED
  {
    (if decoded.Some? then decoded.value.end else 0) + QUESTION_FIXED
  }

  /** As written, a question whose name is too long to decode sends the
      cursor back to offset 4, inside the header, before the name. */
  lemma LongNameRewinds(p: seq<byte>, at: nat, labels: seq<Label>)
    requires HEADER_SIZE <= at
    requires ValidLabels(labels) && StoredAt(p, at, EncodeLabels(labels))
    requires NAME_CAPACITY <= TextSize(labels)
    ensures SourceQuestionCursor(DecodeName(p, at)) == 4 < at
  {
    LongNameFails(p, at, labels);
  }

  /** In the model the same question stops the pass as Malformed, with the
      cursor left at the question. */
  lemma LongNameStops(p: seq<byte>, left: nat, at: nat, examined: nat, labels: seq<Label>)
    requires left > 0
    requires ValidLabels(labels) && StoredAt(p, at, EncodeLabels(labels))
    requires NAME_CAPACITY <= TextSize(labels)
    ensures QuestionsFrom(p, left, at, examined) == SectionReport(at, Tally(examined, 0, 0), Malformed)
  {
    assert labels != [];
    StoredFirstLabel(p, at, labels);
    LongNameFails(p, at, labels);
  }

  // ---------------------------------------------------------------------
  // memcpy copies RDLENGTH bytes from a four- or sixteen-byte address.

  /** The number of bytes scan_and_replace_rr as written copies into a
      record's RDATA: RDLENGTH, for an A or AAAA record whose replacement is
      given, and none otherwise. */
  function SourceCopyLength(h: RecordHeader, r: Replacements): (n: nat)
    ensures n > 0 ==> (h.rtype == TYPE_A && r.v4.Some?) || (h.rtype == TYPE_AAAA && r.v6.Some?)
    ensures (h.rtype == TYPE_A && r.v4.Some?) || (h.rtype == TYPE_AAAA && r.v6.Some?) ==> n == h.rdlength
  {
    if (h.rtype == TYPE_A && r.v4.Some?) || (h.rtype == TYPE_AAAA && r.v6.Some?) then h.rdlength else 0
  }

  /** As written, an A record whose RDATA is wider than four bytes makes the
      copy read past the end of the four-byte address; the model skips it. */
  lemma WideARecordOverreads(p: seq<byte>, at: nat, rec: Record, r: Replacements)
    requires ValidRecord(rec) && StoredAt(p, at, EncodeRecord(rec))
    requires rec.rtype == TYPE_A && r.v4.Some? && 4 < |rec.rdata|
    ensures ParseRecord(p, at).Some?
    ensures SourceCopyLength(ParseRecord(p, at).value, r) - |r.v4.value| == |rec.rdata| - 4 > 0
    ensures EffectOf(|p|, ParseRecord(p, at).value, r) == Skipped
  {
    StoredRecord(p, at, rec);
  }

  // ---------------------------------------------------------------------
  // The IPv6 address is taken only when an IPv4 address is given.

  /** The addresses rewrite_mDNS_packet as written hands to the record
      passes: the IPv6 one only when an IPv4 one is given too. When the IPv4
      address is given and the IPv6 one is not, taking the address array of
      the absent IPv6 argument is undefined in C; it is modelled as what it
      yields in practice, no IPv6 address. */
  function SourceReplacements(v4: Option<Ipv4Address>, v6: Option<Ipv6Address>): (r: Replacements)
    ensures r.v4 == v4
    ensures v4.None? ==> r.v6.None?
    ensures v4.Some? ==> r.v6 == v6
  {
    Replacements(v4, if v4.Some? then v6 else None)
  }

  /** As written, with only an IPv6 address given, an AAAA record of sixteen
      bytes is stepped over and keeps its old address; with the same
      addresses the model writes the new one. */
  lemma Ipv6OnlyIgnored(s: PassState, rec: Record, v6: Ipv6Address)
    requires s.left > 0 && ValidRecord(rec) && StoredAt(s.buffer, s.cursor, EncodeRecord(rec))
    requires rec.rtype == TYPE_AAAA && |rec.rdata| == 16
    ensures NextRecord(s, SourceReplacements(None, Some(v6))).Some?
    ensures NextRecord(s, SourceReplacements(None, Some(v6))).value.buffer == s.buffer
    ensures NextRecord(s, Replacements(None, Some(v6))).Some?
    ensures var t := NextRecord(s, Replacements(None, Some(v6))).value;
      RdataAt(s.cursor, rec) + 16 == t.cursor <= |t.buffer| && t.buffer[RdataAt(s.cursor, rec)..t.cursor] == v6
  {
    RecordStep(s, SourceReplacements(None, Some(v6)), rec);
    AaaaRecordReplaced(s, Replacements(None, Some(v6)), rec);
  }
}

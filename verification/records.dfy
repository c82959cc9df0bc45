/** The resource-record pass of scan_and_replace_rr (packet-rewrite.h): the
    cursor moves past each record (a name, then TYPE, CLASS, TTL, RDLENGTH
    and RDATA, section 4.1.3 of RFC 1035), and the RDATA of A and AAAA
    records is overwritten in place with the replacement address. */
module Records {
  import opened Wire
  import opened Names
  import opened Sections

  /** Bytes between a record's name and its RDATA: TYPE, CLASS, TTL, RDLENGTH. */
  const RECORD_FIXED: nat := 10

  /** The addresses to write, each one optional and independent of the other. */
  datatype Replacements = Replacements(v4: Option<Ipv4Address>, v6: Option<Ipv6Address>)

  /** What the pass reads of a record: TYPE, RDLENGTH, and where RDATA starts. */
  datatype RecordHeader = RecordHeader(rtype: nat, rdlength: nat, rdata: nat)

  /** What the pass does to one record's RDATA: leave it, overwrite it with
      `bytes`, or leave it because its size does not allow the write. */
  datatype Effect = Untouched | Replaced(bytes: seq<byte>) | Skipped

  /** The buffer after a pass, and the pass's report. */
  datatype PassResult = PassResult(buffer: seq<byte>, report: SectionReport)

  /** The record at `cursor`: its name must decode and its ten fixed bytes
      must lie inside the datagram; TYPE is read right after the name and
      RDLENGTH eight bytes further. */
  function ParseRecord(p: seq<byte>, cursor: nat): (h: Option<RecordHeader>)
    ensures h.Some? ==> cursor + RECORD_FIXED < h.value.rdata <= |p|
    ensures h.Some? ==> h.value.rtype < 0x1_0000 && h.value.rdlength < 0x1_0000
  {
    match DecodeName(p, cursor)
    case None => None
    case Some(name) =>
      if name.end + RECORD_FIXED > |p| then None
      else Some(RecordHeader(Be16(p, name.end), Be16(p, name.end + 8), name.end + RECORD_FIXED))
  }

  /** The effect on a record of a datagram of `length` bytes: an A record
      when an IPv4 replacement is given, or an AAAA record when an IPv6
      replacement is given, is overwritten when its RDATA is exactly one
      address wide and lies inside the datagram, and skipped otherwise;
      every other record is left alone. */
  function EffectOf(length: nat, h: RecordHeader, r: Replacements): (e: Effect)
    ensures e.Replaced? <==>
      || (h.rtype == TYPE_A && r.v4.Some? && h.rdlength == 4 && h.rdata + 4 <= length)
      || (h.rtype == TYPE_AAAA && r.v6.Some? && h.rdlength == 16 && h.rdata + 16 <= length)
    ensures e.Replaced? ==> |e.bytes| == h.rdlength && h.rdata + h.rdlength <= length
    ensures e.Replaced? && h.rtype == TYPE_A ==> e.bytes == r.v4.value
    ensures e.Replaced? && h.rtype == TYPE_AAAA ==> e.bytes == r.v6.value
    ensures e.Untouched? <==>
      !((h.rtype == TYPE_A && r.v4.Some?) || (h.rtype == TYPE_AAAA && r.v6.Some?))
  {
    if h.rtype == TYPE_A && r.v4.Some? then
      if h.rdlength == 4 && h.rdata + 4 <= length then Replaced(r.v4.value) else Skipped
    else if h.rtype == TYPE_AAAA && r.v6.Some? then
      if h.rdlength == 16 && h.rdata + 16 <= length then Replaced(r.v6.value) else Skipped
    else Untouched
  }

  /** The buffer after an effect at offset `at`. */
  function Apply(p: seq<byte>, at: nat, e: Effect): (q: seq<byte>)
    requires e.Replaced? ==> at + |e.bytes| <= |p|
    ensures |q| == |p|
  {
    if e.Replaced? then Overwrite(p, at, e.bytes) else p
  }

  /** The tally after one more record with effect `e`. */
  function Count(t: Tally, e: Effect): Tally
  {
    Tally(t.examined + 1, t.rewritten + (if e.Replaced? then 1 else 0), t.skipped + (if e.Skipped? then 1 else 0))
  }

  /** Where a record pass stands: the buffer, the records still to go, the
      cursor and the tally so far. */
  datatype PassState = PassState(buffer: seq<byte>, left: nat, cursor: nat, tally: Tally)

  /** One turn of the pass: the record at the cursor is parsed, its effect is
      applied, and the cursor moves past its RDATA by RDLENGTH, whatever the
      effect; None when the record does not parse. */
  function NextRecord(s: PassState, r: Replacements): (t: Option<PassState>)
    requires s.left > 0
    ensures t.Some? ==> t.value.left == s.left - 1 && |t.value.buffer| == |s.buffer|
    ensures t.Some? ==> s.cursor + RECORD_FIXED < t.value.cursor
  {
    match ParseRecord(s.buffer, s.cursor)
    case None => None
    case Some(h) =>
      var e := EffectOf(|s.buffer|, h, r);
      Some(PassState(Apply(s.buffer, h.rdata, e), s.left - 1, h.rdata + h.rdlength, Count(s.tally, e)))
  }

  /** The pass from state `s`. It stops when no record is left, when the
      cursor has reached the end of the datagram, or at a record that does
      not parse. */
  function RecordsFrom(s: PassState, r: Replacements): (res: PassResult)
    ensures |res.buffer| == |s.buffer|
    decreases s.left
  {
    if s.left == 0 || s.cursor >= |s.buffer| then
      PassResult(s.buffer, Finish(|s.buffer|, s.left, s.cursor, s.tally))
    else
      match NextRecord(s, r)
      case None => PassResult(s.buffer, SectionReport(s.cursor, s.tally, Malformed))
      case Some(t) => RecordsFrom(t, r)
  }

  /** The record section of `count` entries starting at `cursor`. */
  function RecordsSection(p: seq<byte>, count: nat, cursor: nat, r: Replacements): (res: PassResult)
    ensures |res.buffer| == |p|
  {
    RecordsFrom(PassState(p, count, cursor, Tally(0, 0, 0)), r)
  }

  /** A pass whose record at the cursor does not parse stops there as Malformed. */
  lemma MalformedStop(s: PassState, r: Replacements)
    requires s.left > 0 && s.cursor < |s.buffer| && ParseRecord(s.buffer, s.cursor).None?
    ensures RecordsFrom(s, r) == PassResult(s.buffer, SectionReport(s.cursor, s.tally, Malformed))
  {
  }

  /** A pass whose record at the cursor parses to `h`, with effect `e`,
      continues from the buffer `next` that the effect leaves. */
  lemma RecordAdvance(s: PassState, r: Replacements, h: RecordHeader, e: Effect, t: PassState)
    requires s.left > 0 && s.cursor < |s.buffer| && ParseRecord(s.buffer, s.cursor) == Some(h)
    requires e == EffectOf(|s.buffer|, h, r) && t.buffer == Apply(s.buffer, h.rdata, e)
    requires t == PassState(t.buffer, s.left - 1, h.rdata + h.rdlength, Count(s.tally, e))
    ensures RecordsFrom(s, r) == RecordsFrom(t, r)
  {
    assert NextRecord(s, r) == Some(t);
  }

  /** Reads the fixed fields that follow the record's name. */
  method ReadRecordHeader(packet: array<byte>, cursor: nat) returns (h: Option<RecordHeader>)
    ensures h == ParseRecord(packet[..], cursor)
  {
    var name := ReadName(packet, cursor);
    if name.None? || name.value.end + RECORD_FIXED > packet.Length {
      return None;
    }
    var end := name.value.end;
    var rtype := packet[end] as nat * 256 + packet[end + 1] as nat;
    var rdlength := packet[end + 8] as nat * 256 + packet[end + 9] as nat;
    return Some(RecordHeader(rtype, rdlength, end + RECORD_FIXED));
  }

  /** The loop of scan_and_replace_rr over the datagram buffer. */
  method ScanAndReplaceRecords(packet: array<byte>, count: nat, cursor: nat, r: Replacements) returns (report: SectionReport)
    modifies packet
    ensures packet[..] == RecordsSection(old(packet[..]), count, cursor, r).buffer
    ensures report == RecordsSection(old(packet[..]), count, cursor, r).report
  {
    ghost var goal := RecordsSection(packet[..], count, cursor, r);
    var left: nat := count;
    var position: nat := cursor;
    var tally := Tally(0, 0, 0);
    while left > 0 && position < packet.Length
      invariant RecordsFrom(PassState(packet[..], left, position, tally), r) == goal
      decreases left
    {
      ghost var s := PassState(packet[..], left, position, tally);
      var h := ReadRecordHeader(packet, position);
      if h.None? {
        MalformedStop(s, r);
        return SectionReport(position, tally, Malformed);
      }
      var header := h.value;
      var e := EffectOf(packet.Length, header, r);
      if e.Replaced? {
        CopyInto(packet, header.rdata, e.bytes);
      }
      tally := Count(tally, e);
      position := header.rdata + header.rdlength;
      left := left - 1;
      RecordAdvance(s, r, header, e, PassState(packet[..], left, position, tally));
    }
    return Finish(packet.Length, left, position, tally);
  }
}

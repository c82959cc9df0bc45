/** The whole rewrite of rewrite_mDNS_packet (packet-rewrite.h): a datagram
    shorter than the DNS header is left alone; otherwise the four section
    counts are read from the header and the question, answer, authority and
    additional sections are passed over in that order, each pass resuming at
    the cursor where the previous one stopped. */
module Rewriter {
  import opened Wire
  import opened Sections
  import opened Questions
  import opened Records

  /** The entry counts of the four sections (QDCOUNT, ANCOUNT, NSCOUNT,
      ARCOUNT, section 4.1.1 of RFC 1035). */
  datatype Counts = Counts(questions: nat, answers: nat, authorities: nat, additional: nat)

  /** What a rewrite did: nothing, for a datagram too short to hold a header,
      or the reports of its four passes. */
  datatype RewriteReport =
    | TooShort
    | Scanned(questions: SectionReport, answers: SectionReport, authorities: SectionReport, additional: SectionReport)

  /** The datagram after a rewrite, and what the rewrite did. */
  datatype RewriteResult = RewriteResult(buffer: seq<byte>, report: RewriteReport)

  /** The counts stored big-endian at offsets 4, 6, 8 and 10 of the header. */
  function HeaderCounts(p: seq<byte>): (c: Counts)
    requires HEADER_SIZE <= |p|
    ensures c.questions < 0x1_0000 && c.answers < 0x1_0000 && c.authorities < 0x1_0000 && c.additional < 0x1_0000
  {
    Counts(Be16(p, 4), Be16(p, 6), Be16(p, 8), Be16(p, 10))
  }

  /** The rewrite of datagram `p` with the replacement addresses `r`. */
  function Rewrite(p: seq<byte>, r: Replacements): (res: RewriteResult)
    ensures |res.buffer| == |p|
    ensures res.report.TooShort? <==> |p| < HEADER_SIZE
    ensures |p| < HEADER_SIZE ==> res.buffer == p
  {
    if |p| < HEADER_SIZE then RewriteResult(p, TooShort)
    else
      var c := HeaderCounts(p);
      var qd := QuestionsSection(p, c.questions, HEADER_SIZE);
      var an := RecordsSection(p, c.answers, qd.cursor, r);
      var ns := RecordsSection(an.buffer, c.authorities, an.report.cursor, r);
      var ar := RecordsSection(ns.buffer, c.additional, ns.report.cursor, r);
      RewriteResult(ar.buffer, Scanned(qd, an.report, ns.report, ar.report))
  }

  /** Reads the four section counts from the header. */
  method ReadCounts(packet: array<byte>) returns (c: Counts)
    requires HEADER_SIZE <= packet.Length
    ensures c == HeaderCounts(packet[..])
  {
    var questions := packet[4] as nat * 256 + packet[5] as nat;
    var answers := packet[6] as nat * 256 + packet[7] as nat;
    var authorities := packet[8] as nat * 256 + packet[9] as nat;
    var additional := packet[10] as nat * 256 + packet[11] as nat;
    return Counts(questions, answers, authorities, additional);
  }

  /** rewrite_mDNS_packet over the datagram buffer: one cursor threaded
      through the four passes, the record passes writing in place. */
  method RewritePacket(packet: array<byte>, r: Replacements) returns (report: RewriteReport)
    modifies packet
    ensures packet[..] == Rewrite(old(packet[..]), r).buffer
    ensures report == Rewrite(old(packet[..]), r).report
  {
    if packet.Length < HEADER_SIZE {
      return TooShort;
    }
    var c := ReadCounts(packet);
    var questions := ScanQuestions(packet, c.questions, HEADER_SIZE);
    var answers := ScanAndReplaceRecords(packet, c.answers, questions.cursor, r);
    var authorities := ScanAndReplaceRecords(packet, c.authorities, answers.cursor, r);
    var additional := ScanAndReplaceRecords(packet, c.additional, authorities.cursor, r);
    return Scanned(questions, answers, authorities, additional);
  }
}

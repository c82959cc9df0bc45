/** The question pass of scan_questions (packet-rewrite.h): the cursor moves
    past each question entry, a name followed by QTYPE and QCLASS
    (section 4.1.2 of RFC 1035). Nothing is written. */
module Questions {
  import opened Wire
  import opened Names
  import opened Sections

  /** Bytes after a question's name: QTYPE and QCLASS. */
  const QUESTION_FIXED: nat := 4

  /** The pass resumed at `cursor` with `left` entries to go and `examined`
      already gone through. It stops when no entry is left, when the cursor
      has reached the end of the datagram, or at a name that does not
      decode. */
  function QuestionsFrom(p: seq<byte>, left: nat, cursor: nat, examined: nat): (rep: SectionReport)
    ensures rep.tally.rewritten == 0 && rep.tally.skipped == 0
    decreases left
  {
    if left == 0 || cursor >= |p| then Finish(|p|, left, cursor, Tally(examined, 0, 0))
    else
      match DecodeName(p, cursor)
      case None => SectionReport(cursor, Tally(examined, 0, 0), Malformed)
      case Some(name) => QuestionsFrom(p, left - 1, name.end + QUESTION_FIXED, examined + 1)
  }

  /** The question section of `count` entries starting at `cursor`. */
  function QuestionsSection(p: seq<byte>, count: nat, cursor: nat): (rep: SectionReport)
    ensures rep.tally.rewritten == 0 && rep.tally.skipped == 0
  {
    QuestionsFrom(p, count, cursor, 0)
  }

  /** The loop of scan_questions over the datagram buffer. */
  method ScanQuestions(packet: array<byte>, count: nat, cursor: nat) returns (report: SectionReport)
    ensures report == QuestionsSection(packet[..], count, cursor)
  {
    var left: nat := count;
    var position: nat := cursor;
    var examined: nat := 0;
    while left > 0 && position < packet.Length
      invariant QuestionsFrom(packet[..], left, position, examined) == QuestionsSection(packet[..], count, cursor)
      decreases left
    {
      var name := ReadName(packet, position);
      if name.None? {
        return SectionReport(position, Tally(examined, 0, 0), Malformed);
      }
      position := name.value.end + QUESTION_FIXED;
      left := left - 1;
      examined := examined + 1;
    }
    return Finish(packet.Length, left, position, Tally(examined, 0, 0));
  }
}

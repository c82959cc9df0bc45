/** A whole rewrite measured against an independent encoder of DNS messages
    (section 4.1 of RFC 1035): a message laid out as its header, its
    questions and its three record sections in that order is rewritten into
    the encoding of the same message with each fitting A or AAAA record's
    address replaced, and every pass stops Complete at the end of its own
    section. */
module MessageLayout {
  import opened Wire
  import opened NameProperties
  import opened Sections
  import opened Questions
  import opened QuestionProperties
  import opened Records
  import opened RecordLayout
  import opened Rewriter

  /** A DNS message: ID, the flags word, and its four sections. */
  datatype Message = Message(id: nat, flags: nat, questions: seq<Question>, answers: seq<Record>,
                             authorities: seq<Record>, additional: seq<Record>)

  predicate ValidMessage(m: Message)
  {
    && m.id < 0x1_0000 && m.flags < 0x1_0000
    && |m.questions| < 0x1_0000 && |m.answers| < 0x1_0000
    && |m.authorities| < 0x1_0000 && |m.additional| < 0x1_0000
    && ValidQuestions(m.questions)
    && ValidRecords(m.answers) && ValidRecords(m.authorities) && ValidRecords(m.additional)
  }

  /** The twelve header bytes: ID, flags and the four section counts. */
  function Header(m: Message): (h: seq<byte>)
    requires ValidMessage(m)
    ensures |h| == HEADER_SIZE
  {
    U16(m.id) + U16(m.flags) + U16(|m.questions|) + U16(|m.answers|) + U16(|m.authorities|) + U16(|m.additional|)
  }

  /** The message on the wire, every name uncompressed. */
  function EncodeMessage(m: Message): seq<byte>
    requires ValidMessage(m)
  {
    Header(m) + EncodeQuestions(m.questions) + EncodeRecords(m.answers)
      + EncodeRecords(m.authorities) + EncodeRecords(m.additional)
  }

  /** The message with the addresses of its fitting A and AAAA records
      replaced, in all three record sections. */
  function RewriteMessage(m: Message, r: Replacements): (out: Message)
    requires ValidMessage(m)
  {
    m.(answers := RewriteRecords(m.answers, r), authorities := RewriteRecords(m.authorities, r),
       additional := RewriteRecords(m.additional, r))
  }

  /** The rewritten message is a message with the same header, and each of
      its sections encodes to as many bytes as the original one. */
  lemma RewrittenMessage(m: Message, r: Replacements)
    requires ValidMessage(m)
    ensures ValidMessage(RewriteMessage(m, r))
    ensures Header(RewriteMessage(m, r)) == Header(m)
    ensures |EncodeRecords(RewriteMessage(m, r).answers)| == |EncodeRecords(m.answers)|
    ensures |EncodeRecords(RewriteMessage(m, r).authorities)| == |EncodeRecords(m.authorities)|
    ensures |EncodeRecords(RewriteMessage(m, r).additional)| == |EncodeRecords(m.additional)|
  {
    RewriteRecordsSize(m.answers, r);
    RewriteRecordsSize(m.authorities, r);
    RewriteRecordsSize(m.additional, r);
  }

  /** The header of a message, whatever follows it, yields the message's
      section counts. */
  lemma CountsRead(m: Message, rest: seq<byte>)
    requires ValidMessage(m)
    ensures HeaderCounts(Header(m) + rest)
         == Counts(|m.questions|, |m.answers|, |m.authorities|, |m.additional|)
  {
    var h := Header(m);
    var p := h + rest;
    assert p[4..6] == h[4..6] == U16(|m.questions|);
    assert p[6..8] == h[6..8] == U16(|m.answers|);
    assert p[8..10] == h[8..10] == U16(|m.authorities|);
    assert p[10..12] == h[10..12] == U16(|m.additional|);
  }

  /** `b` between `a` and `c` is stored right after `a`. */
  lemma StoredMiddle(a: seq<byte>, b: seq<byte>, c: seq<byte>)
    ensures StoredAt(a + b + c, |a|, b)
  {
    assert (a + b + c)[|a|..|a| + |b|] == b;
    StoredAtSlice(a + b + c, |a|, b);
  }

  /** Overwriting the middle part of `a + b + c` with as many bytes gives
      `a + b' + c`. */
  lemma OverwriteMiddle(a: seq<byte>, b: seq<byte>, b': seq<byte>, c: seq<byte>)
    requires |b'| == |b|
    ensures Overwrite(a + b + c, |a|, b') == a + b' + c
  {
    var p := a + b + c;
    assert p[..|a|] == a;
    assert p[|a| + |b'|..] == c;
  }

  /** The question pass over questions stored after `a` reads them all and
      stops Complete at their end. */
  lemma QuestionsMiddle(a: seq<byte>, qs: seq<Question>, c: seq<byte>)
    requires ValidQuestions(qs)
    ensures QuestionsSection(a + EncodeQuestions(qs) + c, |qs|, |a|)
         == SectionReport(|a| + |EncodeQuestions(qs)|, Tally(|qs|, 0, 0), Complete)
  {
    StoredMiddle(a, EncodeQuestions(qs), c);
    QuestionsSectionLayout(a + EncodeQuestions(qs) + c, |a|, qs);
  }

  /** The record pass over records stored after `a` rewrites those records,
      leaves `a` and `c` alone and stops Complete at their end. */
  lemma RecordsMiddle(a: seq<byte>, recs: seq<Record>, c: seq<byte>, r: Replacements, p: seq<byte>, at: nat)
    requires ValidRecords(recs) && p == a + EncodeRecords(recs) + c && at == |a|
    ensures ValidRecords(RewriteRecords(recs, r))
    ensures RecordsSection(p, |recs|, at, r).buffer == a + EncodeRecords(RewriteRecords(recs, r)) + c
    ensures RecordsSection(p, |recs|, at, r).report
         == SectionReport(at + |EncodeRecords(recs)|, Tally(|recs|, CountFits(recs, r), CountMisfits(recs, r)), Complete)
  {
    StoredMiddle(a, EncodeRecords(recs), c);
    RecordsSectionLayout(p, at, recs, r);
    OverwriteMiddle(a, EncodeRecords(recs), EncodeRecords(RewriteRecords(recs, r)), c);
  }

  /** The report of a rewrite of a whole message: every section read in
      full, the questions untouched, each record section's fitting A and
      AAAA records rewritten and its misfits skipped. */
  function MessageReport(m: Message, r: Replacements): (rep: RewriteReport)
    requires ValidMessage(m)
    ensures rep.Scanned?
    ensures rep.questions.status == rep.answers.status == rep.authorities.status == rep.additional.status == Complete
    ensures rep.questions.cursor <= rep.answers.cursor <= rep.authorities.cursor <= rep.additional.cursor
            == |EncodeMessage(m)|
  {
    var q := HEADER_SIZE + |EncodeQuestions(m.questions)|;
    var an := q + |EncodeRecords(m.answers)|;
    var ns := an + |EncodeRecords(m.authorities)|;
    var ar := ns + |EncodeRecords(m.additional)|;
    Scanned(SectionReport(q, Tally(|m.questions|, 0, 0), Complete),
            SectionReport(an, Tally(|m.answers|, CountFits(m.answers, r), CountMisfits(m.answers, r)), Complete),
            SectionReport(ns, Tally(|m.authorities|, CountFits(m.authorities, r), CountMisfits(m.authorities, r)), Complete),
            SectionReport(ar, Tally(|m.additional|, CountFits(m.additional, r), CountMisfits(m.additional, r)), Complete))
  }

  /** Five consecutive parts, the third one singled out. */
  lemma Regroup(a: seq<byte>, b: seq<byte>, c: seq<byte>, d: seq<byte>, e: seq<byte>)
    ensures a + b + c + d + e == (a + b) + c + (d + e)
  {
  }

  /** Five consecutive parts, split after the first and after the second. */
  lemma RegroupAfter(a: seq<byte>, b: seq<byte>, c: seq<byte>, d: seq<byte>, e: seq<byte>)
    ensures a + b + c + d + e == a + (b + c + d + e)
    ensures a + b + c + d + e == a + b + (c + d + e)
  {
    assert a + b + c + d + e == a + (b + c + d + e);
  }

  /** An encoded message is its header and its four sections, one after the
      other. */
  lemma MessageParts(m: Message)
    requires ValidMessage(m)
    ensures var h, qb := Header(m), EncodeQuestions(m.questions);
      var an, ns, ar := EncodeRecords(m.answers), EncodeRecords(m.authorities), EncodeRecords(m.additional);
      && EncodeMessage(m) == h + (qb + an + ns + ar)
      && EncodeMessage(m) == h + qb + (an + ns + ar)
  {
    RegroupAfter(Header(m), EncodeQuestions(m.questions), EncodeRecords(m.answers), EncodeRecords(m.authorities),
                 EncodeRecords(m.additional));
  }

  /** The question pass over an encoded message reads every question and
      stops Complete at the end of the question section. */
  lemma QuestionsPass(m: Message)
    requires ValidMessage(m)
    ensures HeaderCounts(EncodeMessage(m)) == Counts(|m.questions|, |m.answers|, |m.authorities|, |m.additional|)
    ensures QuestionsSection(EncodeMessage(m), |m.questions|, HEADER_SIZE)
         == SectionReport(HEADER_SIZE + |EncodeQuestions(m.questions)|, Tally(|m.questions|, 0, 0), Complete)
  {
    var h, qb := Header(m), EncodeQuestions(m.questions);
    var an, ns, ar := EncodeRecords(m.answers), EncodeRecords(m.authorities), EncodeRecords(m.additional);
    MessageParts(m);
    CountsRead(m, qb + an + ns + ar);
    QuestionsMiddle(h, m.questions, an + ns + ar);
  }

  /** An encoded message, and the same message with its answers
      rewritten, split around the answer section. */
  lemma AnswersParts(m: Message, r: Replacements)
    requires ValidMessage(m)
    ensures ValidMessage(m.(answers := RewriteRecords(m.answers, r)))
    ensures var h, qb := Header(m), EncodeQuestions(m.questions);
      var ns, ar := EncodeRecords(m.authorities), EncodeRecords(m.additional);
      && EncodeMessage(m) == (h + qb) + EncodeRecords(m.answers) + (ns + ar)
      && EncodeMessage(m.(answers := RewriteRecords(m.answers, r)))
         == (h + qb) + EncodeRecords(RewriteRecords(m.answers, r)) + (ns + ar)
  {
    var m' := m.(answers := RewriteRecords(m.answers, r));
    RewriteRecordsSize(m.answers, r);
    assert Header(m') == Header(m);
    Regroup(Header(m), EncodeQuestions(m.questions), EncodeRecords(m.answers), EncodeRecords(m.authorities),
            EncodeRecords(m.additional));
    Regroup(Header(m), EncodeQuestions(m.questions), EncodeRecords(m'.answers), EncodeRecords(m.authorities),
            EncodeRecords(m.additional));
  }

  /** The answer pass over an encoded message rewrites the answers and
      stops Complete at the end of the answer section. */
  lemma AnswersPass(m: Message, r: Replacements, at: nat)
    requires ValidMessage(m) && at == HEADER_SIZE + |EncodeQuestions(m.questions)|
    ensures ValidMessage(m.(answers := RewriteRecords(m.answers, r)))
    ensures RecordsSection(EncodeMessage(m), |m.answers|, at, r).buffer
         == EncodeMessage(m.(answers := RewriteRecords(m.answers, r)))
    ensures RecordsSection(EncodeMessage(m), |m.answers|, at, r).report
         == SectionReport(at + |EncodeRecords(m.answers)|,
                          Tally(|m.answers|, CountFits(m.answers, r), CountMisfits(m.answers, r)), Complete)
  {
    AnswersParts(m, r);
    RecordsMiddle(Header(m) + EncodeQuestions(m.questions), m.answers,
                  EncodeRecords(m.authorities) + EncodeRecords(m.additional), r, EncodeMessage(m), at);
  }

  /** The authority pass over an encoded message rewrites the authority
      records and stops Complete at the end of their section. */
  lemma AuthoritiesPass(m: Message, r: Replacements, at: nat)
    requires ValidMessage(m) && at == HEADER_SIZE + |EncodeQuestions(m.questions)| + |EncodeRecords(m.answers)|
    ensures ValidMessage(m.(authorities := RewriteRecords(m.authorities, r)))
    ensures RecordsSection(EncodeMessage(m), |m.authorities|, at, r).buffer
         == EncodeMessage(m.(authorities := RewriteRecords(m.authorities, r)))
    ensures RecordsSection(EncodeMessage(m), |m.authorities|, at, r).report
         == SectionReport(at + |EncodeRecords(m.authorities)|,
                          Tally(|m.authorities|, CountFits(m.authorities, r), CountMisfits(m.authorities, r)), Complete)
  {
    var m' := m.(authorities := RewriteRecords(m.authorities, r));
    var h, qb := Header(m), EncodeQuestions(m.questions);
    var an, ns, ar := EncodeRecords(m.answers), EncodeRecords(m.authorities), EncodeRecords(m.additional);
    RecordsMiddle(h + qb + an, m.authorities, ar, r, EncodeMessage(m), at);
    assert Header(m') == h;
  }

  /** The additional pass over an encoded message rewrites the additional
      records and stops Complete at the end of the message. */
  lemma AdditionalPass(m: Message, r: Replacements, at: nat)
    requires ValidMessage(m)
    requires at == HEADER_SIZE + |EncodeQuestions(m.questions)| + |EncodeRecords(m.answers)| + |EncodeRecords(m.authorities)|
    ensures ValidMessage(m.(additional := RewriteRecords(m.additional, r)))
    ensures RecordsSection(EncodeMessage(m), |m.additional|, at, r).buffer
         == EncodeMessage(m.(additional := RewriteRecords(m.additional, r)))
    ensures RecordsSection(EncodeMessage(m), |m.additional|, at, r).report
         == SectionReport(at + |EncodeRecords(m.additional)|,
                          Tally(|m.additional|, CountFits(m.additional, r), CountMisfits(m.additional, r)), Complete)
  {
    var m' := m.(additional := RewriteRecords(m.additional, r));
    var h, qb := Header(m), EncodeQuestions(m.questions);
    var an, ns, ar := EncodeRecords(m.answers), EncodeRecords(m.authorities), EncodeRecords(m.additional);
    RecordsMiddle(h + qb + an + ns, m.additional, [], r, EncodeMessage(m), at);
    assert Header(m') == h;
    assert h + qb + an + ns + ar + [] == EncodeMessage(m);
    assert h + qb + an + ns + EncodeRecords(m'.additional) + [] == EncodeMessage(m');
  }

  /** A rewrite of a datagram holding a header is its four passes, each
      starting where the previous one stopped. */
  lemma RewriteOfPasses(p: seq<byte>, r: Replacements, c: Counts, qd: SectionReport,
                        b1: seq<byte>, rep1: SectionReport, b2: seq<byte>, rep2: SectionReport,
                        b3: seq<byte>, rep3: SectionReport)
    requires HEADER_SIZE <= |p| && HeaderCounts(p) == c
    requires QuestionsSection(p, c.questions, HEADER_SIZE) == qd
    requires RecordsSection(p, c.answers, qd.cursor, r).buffer == b1
    requires RecordsSection(p, c.answers, qd.cursor, r).report == rep1
    requires RecordsSection(b1, c.authorities, rep1.cursor, r).buffer == b2
    requires RecordsSection(b1, c.authorities, rep1.cursor, r).report == rep2
    requires RecordsSection(b2, c.additional, rep2.cursor, r).buffer == b3
    requires RecordsSection(b2, c.additional, rep2.cursor, r).report == rep3
    ensures Rewrite(p, r).buffer == b3
    ensures Rewrite(p, r).report == Scanned(qd, rep1, rep2, rep3)
  {
  }

  /** Rewriting an encoded message gives the encoding of the rewritten
      message, with every pass Complete at the end of its section. */
  lemma RewriteEncodedMessage(m: Message, r: Replacements)
    requires ValidMessage(m)
    ensures ValidMessage(RewriteMessage(m, r))
    ensures Rewrite(EncodeMessage(m), r).buffer == EncodeMessage(RewriteMessage(m, r))
    ensures Rewrite(EncodeMessage(m), r).report == MessageReport(m, r)
  {
    var rep := MessageReport(m, r);
    var m1 := m.(answers := RewriteRecords(m.answers, r));
    var m2 := m1.(authorities := RewriteRecords(m.authorities, r));
    var m3 := m2.(additional := RewriteRecords(m.additional, r));
    assert m3 == RewriteMessage(m, r);
    QuestionsPass(m);
    AnswersPass(m, r, rep.questions.cursor);
    RewriteRecordsSize(m.answers, r);
    AuthoritiesPass(m1, r, rep.answers.cursor);
    RewriteRecordsSize(m.authorities, r);
    AdditionalPass(m2, r, rep.authorities.cursor);
    RewriteOfPasses(EncodeMessage(m), r, Counts(|m.questions|, |m.answers|, |m.authorities|, |m.additional|),
                    rep.questions, EncodeMessage(m1), rep.answers, EncodeMessage(m2), rep.authorities,
                    EncodeMessage(m3), rep.additional);
  }
}

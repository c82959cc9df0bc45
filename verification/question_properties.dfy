/** What the question pass computes: the shape of its report, and its exact
    progress over a section laid out as in section 4.1.2 of RFC 1035. */
module QuestionProperties {
  import opened Wire
  import opened Names
  import opened NameProperties
  import opened Sections
  import opened Questions

  /** The report of a question pass: it goes through at most the entries it
      was given, writes nothing, never moves the cursor back, is Complete
      exactly when it went through all of them and stayed within the
      datagram, stops as Malformed only at a name inside the datagram that
      does not decode, and as Truncated only at or past the end. */
  lemma {:induction false} QuestionsFromReport(p: seq<byte>, left: nat, cursor: nat, examined: nat)
    ensures var r := QuestionsFrom(p, left, cursor, examined);
      && examined <= r.tally.examined <= examined + left
      && r.tally.rewritten == 0 && r.tally.skipped == 0
      && cursor <= r.cursor
      && (r.status == Complete <==> r.tally.examined == examined + left && r.cursor <= |p|)
      && (r.status == Malformed ==> r.cursor < |p| && DecodeName(p, r.cursor).None?)
      && (r.status == Truncated ==> |p| <= r.cursor)
    decreases left
  {
    if left > 0 && cursor < |p| {
      match DecodeName(p, cursor)
      case None =>
      case Some(name) =>
        QuestionsFromReport(p, left - 1, name.end + QUESTION_FIXED, examined + 1);
    }
  }

  lemma QuestionsSectionReport(p: seq<byte>, count: nat, cursor: nat)
    ensures var r := QuestionsSection(p, count, cursor);
      && r.tally.examined <= count
      && r.tally.rewritten == 0 && r.tally.skipped == 0
      && cursor <= r.cursor
      && (r.status == Complete <==> r.tally.examined == count && r.cursor <= |p|)
      && (r.status == Malformed ==> r.cursor < |p| && DecodeName(p, r.cursor).None?)
      && (r.status == Truncated ==> |p| <= r.cursor)
  {
    QuestionsFromReport(p, count, cursor, 0);
  }

  /** A question entry: its name's labels, QTYPE and QCLASS. */
  datatype Question = Question(name: seq<Label>, qtype: nat, qclass: nat)

  predicate ValidQuestion(q: Question)
  {
    ValidLabels(q.name) && TextSize(q.name) < NAME_CAPACITY && q.qtype < 0x1_0000 && q.qclass < 0x1_0000
  }

  predicate ValidQuestions(qs: seq<Question>)
  {
    forall k :: 0 <= k < |qs| ==> ValidQuestion(qs[k])
  }

  /** A question entry on the wire, its name uncompressed. */
  function EncodeQuestion(q: Question): seq<byte>
    requires ValidQuestion(q)
  {
    EncodeName(q.name) + U16(q.qtype) + U16(q.qclass)
  }

  /** Question entries one after the other. */
  function EncodeQuestions(qs: seq<Question>): seq<byte>
    requires ValidQuestions(qs)
  {
    if qs == [] then [] else EncodeQuestion(qs[0]) + EncodeQuestions(qs[1..])
  }

  /** One stored question: its name decodes and ends where its fixed fields
      start. */
  lemma StoredQuestion(p: seq<byte>, at: nat, q: Question)
    requires ValidQuestion(q) && StoredAt(p, at, EncodeQuestion(q))
    ensures at + |EncodeQuestion(q)| <= |p|
    ensures DecodeName(p, at) == Some(DecodedName(q.name, at + |EncodeQuestion(q)| - QUESTION_FIXED))
  {
    var fixed := U16(q.qtype) + U16(q.qclass);
    assert EncodeQuestion(q) == EncodeName(q.name) + fixed;
    StoredSplit(p, at, EncodeName(q.name), fixed);
    StoredAtSlice(p, at, EncodeQuestion(q));
    DecodeEncodedName(p, at, q.name);
  }

  /** Stored questions one after the other, the first and then the rest. */
  lemma StoredFirstQuestion(p: seq<byte>, at: nat, qs: seq<Question>)
    requires ValidQuestions(qs) && qs != [] && StoredAt(p, at, EncodeQuestions(qs))
    ensures ValidQuestion(qs[0]) && ValidQuestions(qs[1..])
    ensures StoredAt(p, at, EncodeQuestion(qs[0]))
    ensures StoredAt(p, at + |EncodeQuestion(qs[0])|, EncodeQuestions(qs[1..]))
    ensures |EncodeQuestions(qs)| == |EncodeQuestion(qs[0])| + |EncodeQuestions(qs[1..])|
  {
    assert ValidQuestion(qs[0]);
    assert ValidQuestions(qs[1..]) by {
      forall k | 0 <= k < |qs| - 1
        ensures ValidQuestion(qs[1..][k])
      {
        assert qs[1..][k] == qs[k + 1];
      }
    }
    StoredSplit(p, at, EncodeQuestion(qs[0]), EncodeQuestions(qs[1..]));
  }

  /** One stored question entry: the pass reads its name and moves past it. */
  lemma QuestionStep(p: seq<byte>, left: nat, cursor: nat, examined: nat, q: Question, next: nat)
    requires ValidQuestion(q) && StoredAt(p, cursor, EncodeQuestion(q))
    requires left > 0 && next == cursor + |EncodeQuestion(q)|
    ensures QuestionsFrom(p, left, cursor, examined) == QuestionsFrom(p, left - 1, next, examined + 1)
  {
    StoredQuestion(p, cursor, q);
  }

  /** Over stored question entries the pass reads each name, advances by
      exactly the entry's size (name, then 4 bytes) and counts it. */
  lemma {:induction false} QuestionsThroughLayout(p: seq<byte>, left: nat, cursor: nat, examined: nat,
                                                  qs: seq<Question>, after: nat)
    requires ValidQuestions(qs) && StoredAt(p, cursor, EncodeQuestions(qs))
    requires |qs| <= left && after == cursor + |EncodeQuestions(qs)|
    ensures QuestionsFrom(p, left, cursor, examined) == QuestionsFrom(p, left - |qs|, after, examined + |qs|)
    decreases |qs|
  {
    if qs != [] {
      var next := FirstQuestionStep(p, left, cursor, examined, qs);
      var rest := qs[1..];
      assert left - 1 - |rest| == left - |qs| && examined + 1 + |rest| == examined + |qs|;
      QuestionsThroughLayout(p, left - 1, next, examined + 1, rest, after);
    }
  }

  /** The first of a run of stored questions: the pass steps over it to
      where the rest of the run is stored. */
  lemma FirstQuestionStep(p: seq<byte>, left: nat, cursor: nat, examined: nat, qs: seq<Question>) returns (next: nat)
    requires ValidQuestions(qs) && qs != [] && StoredAt(p, cursor, EncodeQuestions(qs)) && |qs| <= left
    ensures ValidQuestions(qs[1..]) && StoredAt(p, next, EncodeQuestions(qs[1..]))
    ensures next + |EncodeQuestions(qs[1..])| == cursor + |EncodeQuestions(qs)|
    ensures QuestionsFrom(p, left, cursor, examined) == QuestionsFrom(p, left - 1, next, examined + 1)
  {
    StoredFirstQuestion(p, cursor, qs);
    next := cursor + |EncodeQuestion(qs[0])|;
    QuestionStep(p, left, cursor, examined, qs[0], next);
  }

  /** A question section laid out in full is gone through Complete, with the
      cursor just after its last entry. */
  lemma QuestionsSectionLayout(p: seq<byte>, cursor: nat, qs: seq<Question>)
    requires ValidQuestions(qs) && StoredAt(p, cursor, EncodeQuestions(qs))
    ensures QuestionsSection(p, |qs|, cursor)
         == SectionReport(cursor + |EncodeQuestions(qs)|, Tally(|qs|, 0, 0), Complete)
  {
    QuestionsThroughLayout(p, |qs|, cursor, 0, qs, cursor + |EncodeQuestions(qs)|);
    StoredAtSlice(p, cursor, EncodeQuestions(qs));
  }

  /** The positions of `p` that the question pass inspects: the name of each
      entry it reads. */
  ghost function QuestionReads(p: seq<byte>, left: nat, cursor: nat): set<nat>
    decreases left
  {
    if left == 0 || cursor >= |p| then {}
    else
      NameReads(p, cursor) +
        match DecodeName(p, cursor)
        case None => {}
        case Some(name) => QuestionReads(p, left - 1, name.end + QUESTION_FIXED)
  }

  /** A buffer that agrees with `p` on what the question pass inspects gets
      the same report. */
  lemma {:induction false} QuestionsAgree(p: seq<byte>, q: seq<byte>, left: nat, cursor: nat, examined: nat)
    requires AgreeOn(p, q, QuestionReads(p, left, cursor))
    ensures QuestionsFrom(q, left, cursor, examined) == QuestionsFrom(p, left, cursor, examined)
    decreases left
  {
    if left > 0 && cursor < |p| {
      AgreeOnSubset(p, q, QuestionReads(p, left, cursor), NameReads(p, cursor));
      DecodeNameAgrees(p, q, cursor);
      match DecodeName(p, cursor)
      case None =>
      case Some(name) =>
        var next := name.end + QUESTION_FIXED;
        AgreeOnSubset(p, q, QuestionReads(p, left, cursor), QuestionReads(p, left - 1, next));
        QuestionsAgree(p, q, left - 1, next, examined + 1);
    }
  }
}

/** What a whole rewrite does to a datagram: it makes ordered writes of the
    replacement addresses after the header and nothing else, it changes
    nothing without replacements, and rewriting again with the same
    replacements changes nothing more as long as no byte the rewrite reads
    is one it overwrites. */
module RewriteProperties {
  import opened Wire
  import opened Names
  import opened NameProperties
  import opened Sections
  import opened Questions
  import opened QuestionProperties
  import opened Records
  import opened Writes
  import opened RecordProperties
  import opened Rewriter

  /** The question report of a rewrite and the states its three record
      passes start from. */
  datatype Run = Run(questions: SectionReport, answers: PassState, authorities: PassState, additional: PassState)

  /** The passes of the rewrite of `p`, each record pass starting with the
      buffer and at the cursor the previous pass left. */
  function Passes(p: seq<byte>, r: Replacements): (run: Run)
    requires HEADER_SIZE <= |p|
    ensures run.answers.buffer == p && run.answers.cursor == run.questions.cursor
    ensures |run.authorities.buffer| == |p| && |run.additional.buffer| == |p|
  {
    var c := HeaderCounts(p);
    var qd := QuestionsSection(p, c.questions, HEADER_SIZE);
    var s1 := PassState(p, c.answers, qd.cursor, Tally(0, 0, 0));
    var an := RecordsFrom(s1, r);
    var s2 := PassState(an.buffer, c.authorities, an.report.cursor, Tally(0, 0, 0));
    var ns := RecordsFrom(s2, r);
    Run(qd, s1, s2, PassState(ns.buffer, c.additional, ns.report.cursor, Tally(0, 0, 0)))
  }

  /** The rewrite is its passes. */
  lemma RunIsRewrite(p: seq<byte>, r: Replacements)
    requires HEADER_SIZE <= |p|
    ensures var run := Passes(p, r);
      var last := RecordsFrom(run.additional, r);
      Rewrite(p, r) == RewriteResult(last.buffer, Scanned(run.questions, RecordsFrom(run.answers, r).report,
                                                          RecordsFrom(run.authorities, r).report, last.report))
  {
  }

  /** Each record pass starts from the buffer and the cursor the previous
      one left. */
  lemma PassesChain(p: seq<byte>, r: Replacements, run: Run, res1: PassResult, res2: PassResult)
    requires HEADER_SIZE <= |p| && run == Passes(p, r)
    requires res1 == RecordsFrom(run.answers, r) && res2 == RecordsFrom(run.authorities, r)
    ensures run.authorities.buffer == res1.buffer && run.authorities.cursor == res1.report.cursor
    ensures run.additional.buffer == res2.buffer && run.additional.cursor == res2.report.cursor
  {
  }

  /** The writes of a rewrite, pass after pass. */
  ghost function RewriteWrites(p: seq<byte>, r: Replacements): seq<Write>
    requires HEADER_SIZE <= |p|
  {
    var run := Passes(p, r);
    WritesFrom(run.answers, r) + WritesFrom(run.authorities, r) + WritesFrom(run.additional, r)
  }

  /** Ordered writes of replacement addresses inside `p`, each one starting
      after `lo` and ending at or before `hi`. */
  ghost predicate Placed(p: seq<byte>, r: Replacements, ws: seq<Write>, lo: nat, hi: nat)
  {
    && WithinBuffer(ws, |p|) && Ordered(ws)
    && forall j :: 0 <= j < |ws| ==> lo < ws[j].at && ws[j].at + |ws[j].bytes| <= hi && IsReplacement(r, ws[j].bytes)
  }

  /** The writes of a pass from the untouched datagram. */
  lemma FirstPass(p: seq<byte>, r: Replacements, lo: nat, t: PassState, wt: seq<Write>, res: PassResult)
    requires t.buffer == p && lo <= t.cursor
    requires wt == WritesFrom(t, r) && res == RecordsFrom(t, r)
    ensures Placed(p, r, wt, lo, res.report.cursor) && res.buffer == ApplyWrites(p, wt)
    ensures lo <= res.report.cursor
  {
    RecordsFromReport(t, r);
    WritesInside(t, r);
    WritesOrdered(t, r);
    WritesAreReplacements(t, r);
    PassBuffer(t, r);
  }

  /** Writes placed before the cursor a pass starts from, followed by the
      writes of that pass. */
  lemma ThenPass(p: seq<byte>, r: Replacements, ws: seq<Write>, lo: nat, t: PassState, wt: seq<Write>, res: PassResult,
                 all: seq<Write>)
    requires Placed(p, r, ws, lo, t.cursor) && lo <= t.cursor && t.buffer == ApplyWrites(p, ws)
    requires wt == WritesFrom(t, r) && res == RecordsFrom(t, r) && all == ws + wt
    ensures Placed(p, r, all, lo, res.report.cursor) && res.buffer == ApplyWrites(p, all)
    ensures lo <= res.report.cursor
  {
    WritesInside(t, r);
    WritesOrdered(t, r);
    WritesAreReplacements(t, r);
    PassBuffer(t, r);
    RecordsFromReport(t, r);
    ApplyWritesConcat(p, ws, wt);
    OrderedConcat(ws, wt, t.cursor);
    forall j | 0 <= j < |all|
      ensures lo < all[j].at && all[j].at + |all[j].bytes| <= res.report.cursor
      ensures IsReplacement(r, all[j].bytes)
    {
      if j < |ws| {
        assert all[j] == ws[j];
      } else {
        assert all[j] == wt[j - |ws|];
      }
    }
  }

  /** The datagram a rewrite leaves is the one its writes make; the writes
      are ordered, lie after the header and inside the datagram, and each
      copies a replacement address. */
  lemma RewriteLayout(p: seq<byte>, r: Replacements)
    requires HEADER_SIZE <= |p|
    ensures var ws := RewriteWrites(p, r);
      && WithinBuffer(ws, |p|) && Ordered(ws)
      && (forall j :: 0 <= j < |ws| ==> HEADER_SIZE < ws[j].at && IsReplacement(r, ws[j].bytes))
      && Rewrite(p, r).buffer == ApplyWrites(p, ws)
  {
    var run := Passes(p, r);
    var w1, w2, w3 := WritesFrom(run.answers, r), WritesFrom(run.authorities, r), WritesFrom(run.additional, r);
    var res1, res2, res3 := RecordsFrom(run.answers, r), RecordsFrom(run.authorities, r), RecordsFrom(run.additional, r);
    PassesChain(p, r, run, res1, res2);
    QuestionsSectionReport(p, HeaderCounts(p).questions, HEADER_SIZE);
    ThreePasses(p, r, run, w1, w2, w3, res1, res2, res3);
    RunIsRewrite(p, r);
  }

  /** RewriteLayout over the three passes' writes and results. */
  lemma ThreePasses(p: seq<byte>, r: Replacements, run: Run, w1: seq<Write>, w2: seq<Write>, w3: seq<Write>,
                    res1: PassResult, res2: PassResult, res3: PassResult)
    requires run.answers.buffer == p && HEADER_SIZE <= run.answers.cursor
    requires w1 == WritesFrom(run.answers, r) && res1 == RecordsFrom(run.answers, r)
    requires w2 == WritesFrom(run.authorities, r) && res2 == RecordsFrom(run.authorities, r)
    requires w3 == WritesFrom(run.additional, r) && res3 == RecordsFrom(run.additional, r)
    requires run.authorities.buffer == res1.buffer && run.authorities.cursor == res1.report.cursor
    requires run.additional.buffer == res2.buffer && run.additional.cursor == res2.report.cursor
    ensures Placed(p, r, w1 + w2 + w3, HEADER_SIZE, res3.report.cursor) && res3.buffer == ApplyWrites(p, w1 + w2 + w3)
  {
    FirstPass(p, r, HEADER_SIZE, run.answers, w1, res1);
    ThenPass(p, r, w1, HEADER_SIZE, run.authorities, w2, res2, w1 + w2);
    ThenPass(p, r, w1 + w2, HEADER_SIZE, run.additional, w3, res3, w1 + w2 + w3);
  }

  /** A rewrite makes one write per record it counts as rewritten. */
  lemma RewriteCounted(p: seq<byte>, r: Replacements)
    requires HEADER_SIZE <= |p|
    ensures var report := Rewrite(p, r).report;
      |RewriteWrites(p, r)| == report.answers.tally.rewritten + report.authorities.tally.rewritten + report.additional.tally.rewritten
  {
    var run := Passes(p, r);
    RunIsRewrite(p, r);
    WritesCounted(run.answers, r);
    WritesCounted(run.authorities, r);
    WritesCounted(run.additional, r);
  }

  /** Frame of a rewrite: a byte that none of its writes covers keeps its
      value. */
  lemma RewriteKeepsUncovered(p: seq<byte>, r: Replacements, i: nat)
    requires HEADER_SIZE <= |p| && i < |p|
    requires forall k :: 0 <= k < |RewriteWrites(p, r)| ==> !Covers(RewriteWrites(p, r)[k], i)
    ensures Rewrite(p, r).buffer[i] == p[i]
  {
    RewriteLayout(p, r);
    ApplyWritesOutside(p, RewriteWrites(p, r), i);
  }

  /** After a rewrite each written byte holds the byte of the replacement
      address written there. */
  lemma RewriteHoldsWrite(p: seq<byte>, r: Replacements, ws: seq<Write>, buffer: seq<byte>, k: nat, i: nat)
    requires HEADER_SIZE <= |p| && ws == RewriteWrites(p, r) && buffer == Rewrite(p, r).buffer
    requires k < |ws| && Covers(ws[k], i)
    ensures i < |buffer| && buffer[i] == ws[k].bytes[i - ws[k].at]
  {
    RewriteLayout(p, r);
    ApplyWritesInside(p, ws, k, i);
  }

  /** A rewrite never changes the header. */
  lemma HeaderKept(p: seq<byte>, r: Replacements)
    ensures forall i | 0 <= i < HEADER_SIZE && i < |p| :: Rewrite(p, r).buffer[i] == p[i]
  {
    if HEADER_SIZE <= |p| {
      RewriteLayout(p, r);
      forall i | 0 <= i < HEADER_SIZE
        ensures Rewrite(p, r).buffer[i] == p[i]
      {
        ApplyWritesOutside(p, RewriteWrites(p, r), i);
      }
    }
  }

  /** With neither replacement given, a rewrite leaves the datagram exactly
      as it was. */
  lemma NoReplacementsUnchanged(p: seq<byte>, r: Replacements)
    requires r.v4.None? && r.v6.None?
    ensures Rewrite(p, r).buffer == p
  {
    if HEADER_SIZE <= |p| {
      var run := Passes(p, r);
      NoReplacementsPass(run.answers, r);
      NoReplacementsPass(run.authorities, r);
      NoReplacementsPass(run.additional, r);
      RewriteLayout(p, r);
      assert RewriteWrites(p, r) == [];
    }
  }

  /** The positions a rewrite reads: the four counts, the question names,
      and the names, TYPE and RDLENGTH of the records each pass goes
      through. */
  ghost function RewriteReads(p: seq<byte>, r: Replacements): set<nat>
    requires HEADER_SIZE <= |p|
  {
    var run := Passes(p, r);
    Span(4, HEADER_SIZE) + QuestionReads(p, HeaderCounts(p).questions, HEADER_SIZE)
      + PassReads(run.answers, r) + PassReads(run.authorities, r) + PassReads(run.additional, r)
  }

  /** No byte the rewrite of `p` reads is one it overwrites. */
  ghost predicate ReadsUntouched(p: seq<byte>, r: Replacements)
  {
    HEADER_SIZE <= |p| ==> Spared(RewriteReads(p, r), RewriteWrites(p, r))
  }

  /** Buffers that agree on the four counts read the same counts. */
  lemma CountsAgree(p: seq<byte>, q: seq<byte>)
    requires HEADER_SIZE <= |p| && AgreeOn(p, q, Span(4, HEADER_SIZE))
    ensures HeaderCounts(q) == HeaderCounts(p)
  {
    assert forall i :: 4 <= i < HEADER_SIZE ==> i in Span(4, HEADER_SIZE);
  }

  /** A datagram that agrees with `p` on everything the rewrite of `p` reads
      gets the same writes and the same report, when those writes leave
      what the rewrite reads alone. */
  lemma RewriteAgrees(p: seq<byte>, q: seq<byte>, r: Replacements)
    requires HEADER_SIZE <= |p| && ReadsUntouched(p, r) && AgreeOn(p, q, RewriteReads(p, r))
    ensures RewriteWrites(q, r) == RewriteWrites(p, r)
    ensures Rewrite(q, r).report == Rewrite(p, r).report
  {
    var run, run' := Passes(p, r), Passes(q, r);
    var x := RewriteReads(p, r);
    var w1, w2, w3 := WritesFrom(run.answers, r), WritesFrom(run.authorities, r), WritesFrom(run.additional, r);
    var y2, y3 := PassReads(run.authorities, r), PassReads(run.additional, r);
    AgreeOnSubset(p, q, x, Span(4, HEADER_SIZE));
    CountsAgree(p, q);
    AgreeOnSubset(p, q, x, QuestionReads(p, HeaderCounts(p).questions, HEADER_SIZE));
    QuestionsAgree(p, q, HeaderCounts(p).questions, HEADER_SIZE, 0);
    AgreeOnSubset(p, q, x, PassReads(run.answers, r));
    RecordsFromAgrees(run.answers, run'.answers, r);
    PassBuffer(run.answers, r);
    PassBuffer(run'.answers, r);
    SparedParts(x, y2, w1 + w2, w3);
    SparedParts(y2, y2, w1, w2);
    AgreeOnSubset(p, q, x, y2);
    ApplyWritesAgree(p, q, y2, w1);
    RecordsFromAgrees(run.authorities, run'.authorities, r);
    PassBuffer(run.authorities, r);
    PassBuffer(run'.authorities, r);
    SparedParts(x, y3, w1 + w2, w3);
    SparedParts(y3, y3, w1, w2);
    AgreeOnSubset(p, q, x, y3);
    ApplyWritesAgree(p, q, y3, w1);
    ApplyWritesAgree(run.authorities.buffer, run'.authorities.buffer, y3, w2);
    RecordsFromAgrees(run.additional, run'.additional, r);
    RunIsRewrite(p, r);
    RunIsRewrite(q, r);
  }

  /** Rewriting a rewritten datagram again with the same replacements
      changes nothing, as long as no byte the rewrite reads is one it
      overwrites (for instance, no compression pointer leads into a
      rewritten RDATA span). */
  lemma RewriteIdempotent(p: seq<byte>, r: Replacements)
    requires ReadsUntouched(p, r)
    ensures Rewrite(Rewrite(p, r).buffer, r) == Rewrite(p, r)
  {
    if HEADER_SIZE <= |p| {
      var ws := RewriteWrites(p, r);
      var q := Rewrite(p, r).buffer;
      RewriteLayout(p, r);
      WritesKeep(p, ws, RewriteReads(p, r));
      RewriteAgrees(p, q, r);
      RewriteLayout(q, r);
      ApplyWritesTwice(p, ws);
    }
  }
}

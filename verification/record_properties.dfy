/** What the record pass computes: the shape of its report, the writes it
    makes (where, in which order, with which bytes), and that every other
    byte of the datagram is left as it was. */
module RecordProperties {
  import opened Wire
  import opened Names
  import opened NameProperties
  import opened Sections
  import opened Records
  import opened Writes

  /** The write an effect at offset `at` makes, if any. */
  function WritesOf(at: nat, e: Effect): seq<Write>
  {
    if e.Replaced? then [Write(at, e.bytes)] else []
  }

  /** `b` is one of the replacement addresses. */
  predicate IsReplacement(r: Replacements, b: seq<byte>)
  {
    (r.v4.Some? && b == r.v4.value) || (r.v6.Some? && b == r.v6.value)
  }

  /** The writes a pass from `s` makes, in the order it makes them. */
  ghost function WritesFrom(s: PassState, r: Replacements): seq<Write>
    decreases s.left
  {
    if s.left == 0 || s.cursor >= |s.buffer| then []
    else
      match ParseRecord(s.buffer, s.cursor)
      case None => []
      case Some(h) => WritesOf(h.rdata, EffectOf(|s.buffer|, h, r)) + WritesFrom(NextRecord(s, r).value, r)
  }

  /** One record that parses to `h`: the state it leads to, and how the
      pass's result and writes continue from there. */
  lemma Advance(s: PassState, r: Replacements, h: RecordHeader, e: Effect, t: PassState)
    requires s.left > 0 && ParseRecord(s.buffer, s.cursor) == Some(h) && e == EffectOf(|s.buffer|, h, r)
    requires t == PassState(Apply(s.buffer, h.rdata, e), s.left - 1, h.rdata + h.rdlength, Count(s.tally, e))
    ensures NextRecord(s, r) == Some(t)
    ensures RecordsFrom(s, r) == RecordsFrom(t, r)
    ensures WritesFrom(s, r) == WritesOf(h.rdata, e) + WritesFrom(t, r)
  {
    NextIs(s, r, h, e, t);
    ContinueFrom(s, r, h, e, t);
  }

  /** The state after a record that parses to `h`. */
  lemma NextIs(s: PassState, r: Replacements, h: RecordHeader, e: Effect, t: PassState)
    requires s.left > 0 && ParseRecord(s.buffer, s.cursor) == Some(h) && e == EffectOf(|s.buffer|, h, r)
    requires t == PassState(Apply(s.buffer, h.rdata, e), s.left - 1, h.rdata + h.rdlength, Count(s.tally, e))
    ensures NextRecord(s, r) == Some(t)
  {
  }

  /** A pass continues from the state its first record leads to. */
  lemma ContinueFrom(s: PassState, r: Replacements, h: RecordHeader, e: Effect, t: PassState)
    requires s.left > 0 && ParseRecord(s.buffer, s.cursor) == Some(h) && e == EffectOf(|s.buffer|, h, r)
    requires NextRecord(s, r) == Some(t)
    ensures RecordsFrom(s, r) == RecordsFrom(t, r)
    ensures WritesFrom(s, r) == WritesOf(h.rdata, e) + WritesFrom(t, r)
  {
  }

  /** The report of a record pass: it goes through at most the records it was
      given, counts at most one rewrite or skip per record, never moves the
      cursor back, is Complete exactly when it went through all of them and
      stayed within the datagram, stops as Malformed only at a record inside
      the datagram that does not parse, and as Truncated only at or past the
      end. */
  lemma {:induction false} RecordsFromReport(s: PassState, r: Replacements)
    ensures var res := RecordsFrom(s, r); var t := res.report.tally;
      && s.tally.examined <= t.examined <= s.tally.examined + s.left
      && s.tally.rewritten <= t.rewritten && s.tally.skipped <= t.skipped
      && (t.rewritten - s.tally.rewritten) + (t.skipped - s.tally.skipped) <= t.examined - s.tally.examined
      && s.cursor <= res.report.cursor
      && (res.report.status == Complete <==> t.examined == s.tally.examined + s.left && res.report.cursor <= |s.buffer|)
      && (res.report.status == Malformed ==> res.report.cursor < |s.buffer| && ParseRecord(res.buffer, res.report.cursor).None?)
      && (res.report.status == Truncated ==> |s.buffer| <= res.report.cursor)
    decreases s.left
  {
    if s.left > 0 && s.cursor < |s.buffer| {
      match ParseRecord(s.buffer, s.cursor)
      case None =>
        MalformedStop(s, r);
      case Some(h) =>
        var e := EffectOf(|s.buffer|, h, r);
        var t := PassState(Apply(s.buffer, h.rdata, e), s.left - 1, h.rdata + h.rdlength, Count(s.tally, e));
        Advance(s, r, h, e, t);
        RecordsFromReport(t, r);
    }
  }

  /** The writes of a pass lie inside the datagram, after the cursor it
      started from, and end at or before the cursor it stopped at. */
  lemma {:induction false} WritesInside(s: PassState, r: Replacements)
    ensures var ws := WritesFrom(s, r);
      && WithinBuffer(ws, |s.buffer|)
      && (forall j :: 0 <= j < |ws| ==> s.cursor < ws[j].at && ws[j].at + |ws[j].bytes| <= RecordsFrom(s, r).report.cursor)
    decreases s.left
  {
    if s.left > 0 && s.cursor < |s.buffer| {
      match ParseRecord(s.buffer, s.cursor)
      case None =>
      case Some(h) =>
        var e := EffectOf(|s.buffer|, h, r);
        var t := PassState(Apply(s.buffer, h.rdata, e), s.left - 1, h.rdata + h.rdlength, Count(s.tally, e));
        Advance(s, r, h, e, t);
        WritesInside(t, r);
        RecordsFromReport(t, r);
        InsideStep(s.cursor, h, e, |s.buffer|, t.cursor, WritesFrom(t, r), RecordsFrom(t, r).report.cursor);
    }
  }

  /** The writes of a pass come in increasing order, without overlap. */
  lemma {:induction false} WritesOrdered(s: PassState, r: Replacements)
    ensures Ordered(WritesFrom(s, r))
    decreases s.left
  {
    if s.left > 0 && s.cursor < |s.buffer| {
      match ParseRecord(s.buffer, s.cursor)
      case None =>
      case Some(h) =>
        var e := EffectOf(|s.buffer|, h, r);
        var t := PassState(Apply(s.buffer, h.rdata, e), s.left - 1, h.rdata + h.rdlength, Count(s.tally, e));
        Advance(s, r, h, e, t);
        WritesOrdered(t, r);
        WritesInside(t, r);
        OrderedStep(h, e, t.cursor, WritesFrom(t, r));
    }
  }

  /** Each write of a pass copies one of the replacement addresses. */
  lemma {:induction false} WritesAreReplacements(s: PassState, r: Replacements)
    ensures forall j :: 0 <= j < |WritesFrom(s, r)| ==> IsReplacement(r, WritesFrom(s, r)[j].bytes)
    decreases s.left
  {
    if s.left > 0 && s.cursor < |s.buffer| {
      match ParseRecord(s.buffer, s.cursor)
      case None =>
      case Some(h) =>
        var e := EffectOf(|s.buffer|, h, r);
        var t := PassState(Apply(s.buffer, h.rdata, e), s.left - 1, h.rdata + h.rdlength, Count(s.tally, e));
        Advance(s, r, h, e, t);
        WritesAreReplacements(t, r);
        FirstWriteThenRest(WritesOf(h.rdata, e), WritesFrom(t, r));
    }
  }

  /** A pass makes one write per record it counts as rewritten. */
  lemma {:induction false} WritesCounted(s: PassState, r: Replacements)
    ensures |WritesFrom(s, r)| + s.tally.rewritten == RecordsFrom(s, r).report.tally.rewritten
    decreases s.left
  {
    if s.left > 0 && s.cursor < |s.buffer| {
      match ParseRecord(s.buffer, s.cursor)
      case None =>
        MalformedStop(s, r);
      case Some(h) =>
        var e := EffectOf(|s.buffer|, h, r);
        var t := PassState(Apply(s.buffer, h.rdata, e), s.left - 1, h.rdata + h.rdlength, Count(s.tally, e));
        Advance(s, r, h, e, t);
        WritesCounted(t, r);
    }
  }

  /** The buffer a pass leaves is the one its writes make. */
  lemma {:induction false} PassBuffer(s: PassState, r: Replacements)
    ensures WithinBuffer(WritesFrom(s, r), |s.buffer|)
    ensures RecordsFrom(s, r).buffer == ApplyWrites(s.buffer, WritesFrom(s, r))
    decreases s.left
  {
    WritesInside(s, r);
    if s.left > 0 && s.cursor < |s.buffer| {
      match ParseRecord(s.buffer, s.cursor)
      case None =>
        MalformedStop(s, r);
      case Some(h) =>
        var e := EffectOf(|s.buffer|, h, r);
        var t := PassState(Apply(s.buffer, h.rdata, e), s.left - 1, h.rdata + h.rdlength, Count(s.tally, e));
        Advance(s, r, h, e, t);
        PassBuffer(t, r);
        if e.Replaced? {
          ApplyWritesCons(s.buffer, Write(h.rdata, e.bytes), WritesFrom(t, r));
        } else {
          EmptyWrites(WritesFrom(t, r));
        }
    }
  }

  /** The bounds of one record's write followed by the rest of the pass's writes. */
  lemma InsideStep(cursor: nat, h: RecordHeader, e: Effect, n: nat, next: nat, rest: seq<Write>, stop: nat)
    requires cursor < h.rdata && next == h.rdata + h.rdlength && next <= stop
    requires e.Replaced? ==> |e.bytes| == h.rdlength && h.rdata + h.rdlength <= n
    requires WithinBuffer(rest, n)
    requires forall j :: 0 <= j < |rest| ==> next < rest[j].at && rest[j].at + |rest[j].bytes| <= stop
    ensures var ws := WritesOf(h.rdata, e) + rest;
      && WithinBuffer(ws, n)
      && (forall j :: 0 <= j < |ws| ==> cursor < ws[j].at && ws[j].at + |ws[j].bytes| <= stop)
  {
    FirstWriteThenRest(WritesOf(h.rdata, e), rest);
  }

  /** One record's write, ending where the rest of the pass's ordered writes
      begin, keeps the writes ordered. */
  lemma OrderedStep(h: RecordHeader, e: Effect, next: nat, rest: seq<Write>)
    requires next == h.rdata + h.rdlength && (e.Replaced? ==> |e.bytes| == h.rdlength)
    requires Ordered(rest) && forall j :: 0 <= j < |rest| ==> next < rest[j].at
    ensures Ordered(WritesOf(h.rdata, e) + rest)
  {
    if e.Replaced? {
      ConsOrdered(Write(h.rdata, e.bytes), rest);
    } else {
      EmptyWrites(rest);
    }
  }

  /** Frame of a record pass: a byte that no write of the pass covers is
      unchanged. */
  lemma PassKeepsUncovered(s: PassState, r: Replacements, ws: seq<Write>, buffer: seq<byte>, i: nat)
    requires ws == WritesFrom(s, r) && buffer == RecordsFrom(s, r).buffer
    requires i < |s.buffer| && forall j :: 0 <= j < |ws| ==> !Covers(ws[j], i)
    ensures i < |buffer| && buffer[i] == s.buffer[i]
  {
    PassBuffer(s, r);
    ApplyWritesOutside(s.buffer, ws, i);
  }

  /** Each byte a pass writes holds, when the pass is over, the byte of the
      replacement address written there. */
  lemma PassHoldsWrite(s: PassState, r: Replacements, ws: seq<Write>, buffer: seq<byte>, k: nat, i: nat)
    requires ws == WritesFrom(s, r) && buffer == RecordsFrom(s, r).buffer
    requires k < |ws| && Covers(ws[k], i)
    ensures i < |buffer| && buffer[i] == ws[k].bytes[i - ws[k].at]
  {
    PassBuffer(s, r);
    WritesOrdered(s, r);
    ApplyWritesInside(s.buffer, ws, k, i);
  }

  /** With neither replacement given, a record pass writes nothing, leaves
      the datagram as it was, and counts no record as rewritten or skipped. */
  lemma {:induction false} NoReplacementsPass(s: PassState, r: Replacements)
    requires r.v4.None? && r.v6.None?
    ensures WritesFrom(s, r) == []
    ensures RecordsFrom(s, r).buffer == s.buffer
    ensures RecordsFrom(s, r).report.tally.rewritten == s.tally.rewritten
    ensures RecordsFrom(s, r).report.tally.skipped == s.tally.skipped
    decreases s.left
  {
    if s.left > 0 && s.cursor < |s.buffer| {
      match ParseRecord(s.buffer, s.cursor)
      case None =>
        MalformedStop(s, r);
      case Some(h) =>
        var e := EffectOf(|s.buffer|, h, r);
        assert e == Untouched;
        var t := PassState(s.buffer, s.left - 1, h.rdata + h.rdlength, Count(s.tally, e));
        Advance(s, r, h, e, t);
        NoReplacementsPass(t, r);
    }
  }

  /** The positions of `p` that reading the record at `cursor` inspects: its
      name, then TYPE and RDLENGTH (CLASS and TTL are stepped over). */
  ghost function RecordReads(p: seq<byte>, cursor: nat): set<nat>
  {
    NameReads(p, cursor) +
      match DecodeName(p, cursor)
      case None => {}
      case Some(name) => Span(name.end, name.end + 2) + Span(name.end + 8, name.end + RECORD_FIXED)
  }

  /** A buffer that agrees with `p` on what reading a record inspects reads
      the same record. */
  lemma ParseAgrees(p: seq<byte>, q: seq<byte>, cursor: nat)
    requires AgreeOn(p, q, RecordReads(p, cursor))
    ensures ParseRecord(q, cursor) == ParseRecord(p, cursor)
  {
    AgreeOnSubset(p, q, RecordReads(p, cursor), NameReads(p, cursor));
    DecodeNameAgrees(p, q, cursor);
    match DecodeName(p, cursor)
    case None =>
    case Some(name) =>
      if name.end + RECORD_FIXED <= |p| {
        assert name.end in Span(name.end, name.end + 2) && name.end + 1 in Span(name.end, name.end + 2);
        assert name.end + 8 in Span(name.end + 8, name.end + RECORD_FIXED);
        assert name.end + 9 in Span(name.end + 8, name.end + RECORD_FIXED);
      }
  }

  /** The positions a pass from `s` inspects, each record's read in the
      buffer as the writes before it left it. */
  ghost function PassReads(s: PassState, r: Replacements): set<nat>
    decreases s.left
  {
    if s.left == 0 || s.cursor >= |s.buffer| then {}
    else
      RecordReads(s.buffer, s.cursor) +
        match NextRecord(s, r)
        case None => {}
        case Some(t) => PassReads(t, r)
  }

  /** A pass that has a record to read inspects that record. */
  lemma ReadsHead(s: PassState, r: Replacements)
    requires s.left > 0 && s.cursor < |s.buffer|
    ensures RecordReads(s.buffer, s.cursor) <= PassReads(s, r)
  {
  }

  /** What a pass that goes on to `t` inspects. */
  lemma ReadsAdvance(s: PassState, r: Replacements, t: PassState)
    requires s.left > 0 && s.cursor < |s.buffer| && NextRecord(s, r) == Some(t)
    ensures PassReads(s, r) == RecordReads(s.buffer, s.cursor) + PassReads(t, r)
  {
  }

  /** Buffers that agree on a set of positions still agree there after the
      same effect. */
  lemma ApplyAgrees(p: seq<byte>, q: seq<byte>, x: set<nat>, at: nat, e: Effect)
    requires AgreeOn(p, q, x) && (e.Replaced? ==> at + |e.bytes| <= |p|)
    ensures AgreeOn(Apply(p, at, e), Apply(q, at, e), x)
  {
    if e.Replaced? {
      var p', q' := Overwrite(p, at, e.bytes), Overwrite(q, at, e.bytes);
      forall i | i in x && i < |p'|
        ensures p'[i] == q'[i]
      {
        if at <= i < at + |e.bytes| {
          assert p'[i] == p'[at..at + |e.bytes|][i - at];
          assert q'[i] == q'[at..at + |e.bytes|][i - at];
        }
      }
    }
  }

  /** A pass over a buffer that agrees with `s`'s on everything the pass
      inspects makes the same writes and the same report. */
  lemma {:induction false} RecordsFromAgrees(s: PassState, s': PassState, r: Replacements)
    requires s'.left == s.left && s'.cursor == s.cursor && s'.tally == s.tally
    requires AgreeOn(s.buffer, s'.buffer, PassReads(s, r))
    ensures WritesFrom(s', r) == WritesFrom(s, r)
    ensures RecordsFrom(s', r).report == RecordsFrom(s, r).report
    decreases s.left, 1
  {
    if s.left > 0 && s.cursor < |s.buffer| {
      ReadsHead(s, r);
      AgreeOnSubset(s.buffer, s'.buffer, PassReads(s, r), RecordReads(s.buffer, s.cursor));
      ParseAgrees(s.buffer, s'.buffer, s.cursor);
      if ParseRecord(s.buffer, s.cursor).None? {
        MalformedStop(s, r);
        MalformedStop(s', r);
      } else {
        RecordAgrees(s, s', r, ParseRecord(s.buffer, s.cursor).value);
      }
    }
  }

  /** RecordsFromAgrees at a record that parses to `h` in both buffers. */
  lemma {:induction false} RecordAgrees(s: PassState, s': PassState, r: Replacements, h: RecordHeader)
    requires s'.left == s.left && s'.cursor == s.cursor && s'.tally == s.tally
    requires AgreeOn(s.buffer, s'.buffer, PassReads(s, r))
    requires s.left > 0 && s.cursor < |s.buffer|
    requires ParseRecord(s.buffer, s.cursor) == Some(h) && ParseRecord(s'.buffer, s'.cursor) == Some(h)
    ensures WritesFrom(s', r) == WritesFrom(s, r)
    ensures RecordsFrom(s', r).report == RecordsFrom(s, r).report
    decreases s.left, 0
  {
    var e := EffectOf(|s.buffer|, h, r);
    var t := PassState(Apply(s.buffer, h.rdata, e), s.left - 1, h.rdata + h.rdlength, Count(s.tally, e));
    var t' := PassState(Apply(s'.buffer, h.rdata, e), s.left - 1, h.rdata + h.rdlength, Count(s.tally, e));
    Advance(s, r, h, e, t);
    Advance(s', r, h, e, t');
    ReadsAdvance(s, r, t);
    AgreeOnSubset(s.buffer, s'.buffer, PassReads(s, r), PassReads(t, r));
    ApplyAgrees(s.buffer, s'.buffer, PassReads(t, r), h.rdata, e);
    RecordsFromAgrees(t, t', r);
  }
}

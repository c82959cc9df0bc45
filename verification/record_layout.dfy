/** A record pass measured against an independent encoder of resource records
    (section 4.1.3 of RFC 1035): a stored record parses to its own TYPE and
    RDLENGTH, the pass steps over exactly the record's bytes, and an A or
    AAAA record of address width ends up holding the replacement address. */
module RecordLayout {
  import opened Wire
  import opened Names
  import opened NameProperties
  import opened Sections
  import opened Records

  /** A resource record: its name's labels, TYPE, CLASS, TTL and RDATA. */
  datatype Record = Record(name: seq<Label>, rtype: nat, rclass: nat, ttl: nat, rdata: seq<byte>)

  predicate ValidRecord(rec: Record)
  {
    && ValidLabels(rec.name) && TextSize(rec.name) < NAME_CAPACITY
    && rec.rtype < 0x1_0000 && rec.rclass < 0x1_0000 && rec.ttl < 0x1_0000_0000
    && |rec.rdata| < 0x1_0000
  }

  /** The ten bytes between the name and RDATA: TYPE, CLASS, TTL, RDLENGTH. */
  function FixedFields(rec: Record): (e: seq<byte>)
    requires ValidRecord(rec)
    ensures |e| == RECORD_FIXED
  {
    U16(rec.rtype) + U16(rec.rclass) + U16(rec.ttl / 0x1_0000) + U16(rec.ttl % 0x1_0000) + U16(|rec.rdata|)
  }

  /** A record on the wire, its name uncompressed. */
  function EncodeRecord(rec: Record): seq<byte>
    requires ValidRecord(rec)
  {
    EncodeName(rec.name) + (FixedFields(rec) + rec.rdata)
  }

  /** Where a stored record's RDATA starts. */
  function RdataAt(at: nat, rec: Record): nat
    requires ValidRecord(rec)
  {
    at + |EncodeName(rec.name)| + RECORD_FIXED
  }

  /** TYPE and RDLENGTH read back from stored fixed fields. */
  lemma StoredFixedFields(p: seq<byte>, end: nat, rec: Record, fixed: seq<byte>)
    requires ValidRecord(rec) && fixed == FixedFields(rec) && StoredAt(p, end, fixed)
    ensures end + RECORD_FIXED <= |p|
    ensures Be16(p, end) == rec.rtype && Be16(p, end + 8) == |rec.rdata|
  {
    StoredAtSlice(p, end, fixed);
    var t := U16(rec.rtype);
    var l := U16(|rec.rdata|);
    assert fixed[0] == t[0] && fixed[1] == t[1];
    assert fixed[8] == l[0] && fixed[9] == l[1];
    assert p[end] == fixed[0] && p[end + 1] == fixed[1];
    assert p[end + 8] == fixed[8] && p[end + 9] == fixed[9];
  }

  /** A stored record parses to its own TYPE and RDLENGTH, with RDATA right
      after the fixed fields; the record ends where its RDATA ends. */
  lemma StoredRecord(p: seq<byte>, at: nat, rec: Record)
    requires ValidRecord(rec) && StoredAt(p, at, EncodeRecord(rec))
    ensures ParseRecord(p, at) == Some(RecordHeader(rec.rtype, |rec.rdata|, RdataAt(at, rec)))
    ensures RdataAt(at, rec) + |rec.rdata| == at + |EncodeRecord(rec)| <= |p|
  {
    var name := EncodeName(rec.name);
    var fixed := FixedFields(rec);
    StoredSplit(p, at, name, fixed + rec.rdata);
    StoredSplit(p, at + |name|, fixed, rec.rdata);
    StoredAtSlice(p, at + |name| + RECORD_FIXED, rec.rdata);
    StoredFixedFields(p, at + |name|, rec, fixed);
    DecodeEncodedName(p, at, rec.name);
  }

  /** The pass steps over exactly one stored record: the cursor moves to the
      byte after its RDATA, one record fewer is left, and the record's effect
      is the one its TYPE and RDLENGTH call for. */
  lemma RecordStep(s: PassState, r: Replacements, rec: Record)
    requires s.left > 0 && ValidRecord(rec) && StoredAt(s.buffer, s.cursor, EncodeRecord(rec))
    ensures RdataAt(s.cursor, rec) + |rec.rdata| == s.cursor + |EncodeRecord(rec)| <= |s.buffer|
    ensures var e := EffectOf(|s.buffer|, RecordHeader(rec.rtype, |rec.rdata|, RdataAt(s.cursor, rec)), r);
      NextRecord(s, r) == Some(PassState(Apply(s.buffer, RdataAt(s.cursor, rec), e), s.left - 1,
                                         s.cursor + |EncodeRecord(rec)|, Count(s.tally, e)))
  {
    StoredRecord(s.buffer, s.cursor, rec);
  }

  /** A stored A record with four bytes of RDATA, met while an IPv4
      replacement is given, holds that address afterwards and nothing else in
      the datagram changes; the tally counts it as rewritten. */
  lemma ARecordReplaced(s: PassState, r: Replacements, rec: Record)
    requires s.left > 0 && ValidRecord(rec) && StoredAt(s.buffer, s.cursor, EncodeRecord(rec))
    requires rec.rtype == TYPE_A && |rec.rdata| == 4 && r.v4.Some?
    ensures NextRecord(s, r).Some?
    ensures RdataAt(s.cursor, rec) + 4 == NextRecord(s, r).value.cursor <= |s.buffer|
    ensures var t := NextRecord(s, r).value;
      && t.buffer[RdataAt(s.cursor, rec)..t.cursor] == r.v4.value
      && t.buffer[..RdataAt(s.cursor, rec)] == s.buffer[..RdataAt(s.cursor, rec)]
      && t.buffer[t.cursor..] == s.buffer[t.cursor..]
      && t.tally.rewritten == s.tally.rewritten + 1 && t.tally.skipped == s.tally.skipped
  {
    RecordStep(s, r, rec);
  }

  /** The same for a stored AAAA record with sixteen bytes of RDATA and an
      IPv6 replacement. */
  lemma AaaaRecordReplaced(s: PassState, r: Replacements, rec: Record)
    requires s.left > 0 && ValidRecord(rec) && StoredAt(s.buffer, s.cursor, EncodeRecord(rec))
    requires rec.rtype == TYPE_AAAA && |rec.rdata| == 16 && r.v6.Some?
    ensures NextRecord(s, r).Some?
    ensures RdataAt(s.cursor, rec) + 16 == NextRecord(s, r).value.cursor <= |s.buffer|
    ensures var t := NextRecord(s, r).value;
      && t.buffer[RdataAt(s.cursor, rec)..t.cursor] == r.v6.value
      && t.buffer[..RdataAt(s.cursor, rec)] == s.buffer[..RdataAt(s.cursor, rec)]
      && t.buffer[t.cursor..] == s.buffer[t.cursor..]
      && t.tally.rewritten == s.tally.rewritten + 1 && t.tally.skipped == s.tally.skipped
  {
    RecordStep(s, r, rec);
  }

  /** A stored A or AAAA record whose RDATA is not one address wide, met
      while the matching replacement is given, is stepped over unchanged and
      counted as skipped. */
  lemma MisfitRecordSkipped(s: PassState, r: Replacements, rec: Record)
    requires s.left > 0 && ValidRecord(rec) && StoredAt(s.buffer, s.cursor, EncodeRecord(rec))
    requires (rec.rtype == TYPE_A && r.v4.Some? && |rec.rdata| != 4)
          || (rec.rtype == TYPE_AAAA && r.v6.Some? && |rec.rdata| != 16)
    ensures NextRecord(s, r).Some?
    ensures NextRecord(s, r).value.buffer == s.buffer
    ensures NextRecord(s, r).value.tally.skipped == s.tally.skipped + 1
    ensures NextRecord(s, r).value.tally.rewritten == s.tally.rewritten
  {
    RecordStep(s, r, rec);
  }

  // ---------------------------------------------------------------------
  // A whole section of stored records.

  predicate ValidRecords(recs: seq<Record>)
  {
    forall k :: 0 <= k < |recs| ==> ValidRecord(recs[k])
  }

  /** Records one after the other, their names uncompressed. */
  function EncodeRecords(recs: seq<Record>): seq<byte>
    requires ValidRecords(recs)
  {
    if recs == [] then [] else EncodeRecord(recs[0]) + EncodeRecords(recs[1..])
  }

  /** A record whose RDATA the rewrite replaces: an A record four bytes wide
      while an IPv4 address is given, or an AAAA record sixteen bytes wide
      while an IPv6 address is given. */
  predicate Fits(rec: Record, r: Replacements)
  {
    (rec.rtype == TYPE_A && r.v4.Some? && |rec.rdata| == 4) || (rec.rtype == TYPE_AAAA && r.v6.Some? && |rec.rdata| == 16)
  }

  /** A record of a replaced type whose RDATA is not one address wide. */
  predicate Misfit(rec: Record, r: Replacements)
  {
    (rec.rtype == TYPE_A && r.v4.Some? && |rec.rdata| != 4) || (rec.rtype == TYPE_AAAA && r.v6.Some? && |rec.rdata| != 16)
  }

  /** The record as the rewrite should leave it: the given address in place
      of the RDATA of a fitting record, every other record as it was. */
  function RewriteRecord(rec: Record, r: Replacements): (out: Record)
    ensures out.name == rec.name && out.rtype == rec.rtype && out.rclass == rec.rclass && out.ttl == rec.ttl
    ensures |out.rdata| == |rec.rdata|
    ensures !Fits(rec, r) ==> out == rec
    ensures rec.rtype == TYPE_A && Fits(rec, r) ==> out.rdata == r.v4.value
    ensures rec.rtype == TYPE_AAAA && Fits(rec, r) ==> out.rdata == r.v6.value
  {
    if rec.rtype == TYPE_A && r.v4.Some? && |rec.rdata| == 4 then rec.(rdata := r.v4.value)
    else if rec.rtype == TYPE_AAAA && r.v6.Some? && |rec.rdata| == 16 then rec.(rdata := r.v6.value)
    else rec
  }

  function RewriteRecords(recs: seq<Record>, r: Replacements): (out: seq<Record>)
    ensures |out| == |recs|
  {
    if recs == [] then [] else [RewriteRecord(recs[0], r)] + RewriteRecords(recs[1..], r)
  }

  /** Each record of a rewritten section is the rewrite of the record in
      the same position. */
  lemma {:induction false} RewrittenAt(recs: seq<Record>, r: Replacements, k: nat)
    requires k < |recs|
    ensures RewriteRecords(recs, r)[k] == RewriteRecord(recs[k], r)
    decreases k
  {
    if k > 0 {
      RewrittenAt(recs[1..], r, k - 1);
    }
  }

  /** Number of records whose RDATA is replaced. */
  function CountFits(recs: seq<Record>, r: Replacements): nat
  {
    if recs == [] then 0 else (if Fits(recs[0], r) then 1 else 0) + CountFits(recs[1..], r)
  }

  /** Number of records of a replaced type that are left for their width. */
  function CountMisfits(recs: seq<Record>, r: Replacements): nat
  {
    if recs == [] then 0 else (if Misfit(recs[0], r) then 1 else 0) + CountMisfits(recs[1..], r)
  }

  /** Rewriting keeps a valid record valid and its encoding as long. */
  lemma RewriteRecordSize(rec: Record, r: Replacements)
    requires ValidRecord(rec)
    ensures ValidRecord(RewriteRecord(rec, r))
    ensures FixedFields(RewriteRecord(rec, r)) == FixedFields(rec)
    ensures |EncodeRecord(RewriteRecord(rec, r))| == |EncodeRecord(rec)|
  {
  }

  /** The first of several records, and the rest. */
  lemma RecordsFirst(recs: seq<Record>, r: Replacements)
    requires ValidRecords(recs) && recs != []
    ensures ValidRecord(recs[0]) && ValidRecords(recs[1..])
    ensures ValidRecords(RewriteRecords(recs, r)) && ValidRecords(RewriteRecords(recs[1..], r))
    ensures EncodeRecords(recs) == EncodeRecord(recs[0]) + EncodeRecords(recs[1..])
    ensures EncodeRecords(RewriteRecords(recs, r))
         == EncodeRecord(RewriteRecord(recs[0], r)) + EncodeRecords(RewriteRecords(recs[1..], r))
    ensures CountFits(recs, r) == (if Fits(recs[0], r) then 1 else 0) + CountFits(recs[1..], r)
    ensures CountMisfits(recs, r) == (if Misfit(recs[0], r) then 1 else 0) + CountMisfits(recs[1..], r)
  {
    assert ValidRecords(recs[1..]) by {
      forall k | 0 <= k < |recs| - 1
        ensures ValidRecord(recs[1..][k])
      {
        assert recs[1..][k] == recs[k + 1];
      }
    }
    var out := RewriteRecords(recs, r);
    forall k | 0 <= k < |out|
      ensures ValidRecord(out[k])
    {
      RewrittenAt(recs, r, k);
      RewriteRecordSize(recs[k], r);
    }
    forall k | 0 <= k < |recs| - 1
      ensures ValidRecord(RewriteRecords(recs[1..], r)[k])
    {
      assert recs[1..][k] == recs[k + 1];
      RewrittenAt(recs[1..], r, k);
      RewriteRecordSize(recs[k + 1], r);
    }
    assert out[1..] == RewriteRecords(recs[1..], r);
  }

  /** Rewritten records take as many bytes as the originals. */
  lemma {:induction false} RewriteRecordsSize(recs: seq<Record>, r: Replacements)
    requires ValidRecords(recs)
    ensures ValidRecords(RewriteRecords(recs, r))
    ensures |EncodeRecords(RewriteRecords(recs, r))| == |EncodeRecords(recs)|
    decreases |recs|
  {
    if recs != [] {
      RecordsFirst(recs, r);
      RewriteRecordSize(recs[0], r);
      RewriteRecordsSize(recs[1..], r);
    } else {
      assert RewriteRecords(recs, r) == [];
    }
  }

  /** Writing bytes at `at` and then more right after them is writing both at once. */
  lemma OverwriteConcat(p: seq<byte>, at: nat, a: seq<byte>, b: seq<byte>)
    requires at + |a| + |b| <= |p|
    ensures Overwrite(Overwrite(p, at, a), at + |a|, b) == Overwrite(p, at, a + b)
  {
  }

  /** Writing the bytes already stored changes nothing. */
  lemma OverwriteStored(p: seq<byte>, at: nat, a: seq<byte>)
    requires StoredAt(p, at, a)
    ensures at + |a| <= |p| && Overwrite(p, at, a) == p
  {
    StoredAtSlice(p, at, a);
  }

  /** A write that ends before `x` leaves what is stored from `x` on. */
  lemma StoredAfterOverwrite(p: seq<byte>, at: nat, a: seq<byte>, x: nat, b: seq<byte>)
    requires at + |a| <= x && StoredAt(p, x, b)
    ensures StoredAt(Overwrite(p, at, a), x, b)
  {
    StoredAtSlice(p, x, b);
    var q := Overwrite(p, at, a);
    assert q[x..x + |b|] == p[x..x + |b|];
    StoredAtSlice(q, x, b);
  }

  /** A record's bytes before its RDATA: its name and its fixed fields. */
  function RecordPrefix(rec: Record): (e: seq<byte>)
    requires ValidRecord(rec)
    ensures |e| == |EncodeName(rec.name)| + RECORD_FIXED
  {
    EncodeName(rec.name) + FixedFields(rec)
  }

  lemma EncodeRecordSplit(rec: Record)
    requires ValidRecord(rec)
    ensures EncodeRecord(rec) == RecordPrefix(rec) + rec.rdata
  {
  }

  /** Rewriting a record keeps everything before its RDATA. */
  lemma PrefixKept(rec: Record, r: Replacements)
    requires ValidRecord(rec)
    ensures ValidRecord(RewriteRecord(rec, r))
    ensures RecordPrefix(RewriteRecord(rec, r)) == RecordPrefix(rec)
  {
    RewriteRecordSize(rec, r);
  }

  /** The effect of the pass on a stored record is writing the rewritten
      record over it. */
  lemma ApplyIsRewrite(p: seq<byte>, at: nat, rec: Record, r: Replacements, e: Effect)
    requires ValidRecord(rec) && StoredAt(p, at, EncodeRecord(rec))
    requires e == EffectOf(|p|, RecordHeader(rec.rtype, |rec.rdata|, RdataAt(at, rec)), r)
    ensures at + |EncodeRecord(rec)| <= |p|
    ensures |EncodeRecord(RewriteRecord(rec, r))| == |EncodeRecord(rec)|
    ensures e.Replaced? <==> Fits(rec, r)
    ensures e.Skipped? <==> Misfit(rec, r)
    ensures Apply(p, RdataAt(at, rec), e) == Overwrite(p, at, EncodeRecord(RewriteRecord(rec, r)))
  {
    StoredRecord(p, at, rec);
    var out := RewriteRecord(rec, r);
    var prefix := RecordPrefix(rec);
    EncodeRecordSplit(rec);
    EncodeRecordSplit(out);
    PrefixKept(rec, r);
    assert EncodeRecord(rec) == prefix + rec.rdata;
    StoredSplit(p, at, prefix, rec.rdata);
    var mid := at + |prefix|;
    assert StoredAt(p, mid, rec.rdata);
    assert mid == RdataAt(at, rec);
    OverwriteStored(p, at, prefix);
    OverwriteConcat(p, at, prefix, out.rdata);
    if !Fits(rec, r) {
      RdataKept(p, mid, rec.rdata);
    }
  }

  lemma RdataKept(p: seq<byte>, mid: nat, rdata: seq<byte>)
    requires StoredAt(p, mid, rdata)
    ensures mid + |rdata| <= |p| && Overwrite(p, mid, rdata) == p
  {
    OverwriteStored(p, mid, rdata);
  }

  /** One stored record: the pass writes the rewritten record over it, moves
      past it and counts it. */
  lemma RecordRewritten(s: PassState, r: Replacements, rec: Record)
    requires s.left > 0 && ValidRecord(rec) && StoredAt(s.buffer, s.cursor, EncodeRecord(rec))
    ensures s.cursor + |EncodeRecord(rec)| <= |s.buffer|
    ensures |EncodeRecord(RewriteRecord(rec, r))| == |EncodeRecord(rec)|
    ensures NextRecord(s, r).Some?
    ensures NextRecord(s, r).value.buffer == Overwrite(s.buffer, s.cursor, EncodeRecord(RewriteRecord(rec, r)))
    ensures NextRecord(s, r).value.cursor == s.cursor + |EncodeRecord(rec)|
    ensures NextRecord(s, r).value.tally == Tally(s.tally.examined + 1, s.tally.rewritten + (if Fits(rec, r) then 1 else 0),
                                                  s.tally.skipped + (if Misfit(rec, r) then 1 else 0))
  {
    var e := EffectOf(|s.buffer|, RecordHeader(rec.rtype, |rec.rdata|, RdataAt(s.cursor, rec)), r);
    RecordStep(s, r, rec);
    ApplyIsRewrite(s.buffer, s.cursor, rec, r, e);
    CountedRecord(s.tally, e, rec, r);
  }

  /** Counting a record by its effect is counting whether it fits. */
  lemma CountedRecord(tally: Tally, e: Effect, rec: Record, r: Replacements)
    requires e.Replaced? <==> Fits(rec, r)
    requires e.Skipped? <==> Misfit(rec, r)
    ensures Count(tally, e) == Tally(tally.examined + 1, tally.rewritten + (if Fits(rec, r) then 1 else 0),
                                     tally.skipped + (if Misfit(rec, r) then 1 else 0))
  {
  }

  /** Over a run of stored records the pass leaves each record rewritten,
      counts every record, the rewritten ones and the skipped ones, and goes
      on from just after the last one with that many records fewer left. */
  lemma {:induction false} RecordsThroughLayout(s: PassState, r: Replacements, recs: seq<Record>) returns (u: PassState)
    requires ValidRecords(recs) && StoredAt(s.buffer, s.cursor, EncodeRecords(recs)) && |recs| <= s.left
    ensures ValidRecords(RewriteRecords(recs, r))
    ensures s.cursor + |EncodeRecords(recs)| <= |s.buffer|
    ensures |EncodeRecords(RewriteRecords(recs, r))| == |EncodeRecords(recs)|
    ensures u == PassState(Overwrite(s.buffer, s.cursor, EncodeRecords(RewriteRecords(recs, r))), s.left - |recs|,
                           s.cursor + |EncodeRecords(recs)|,
                           Tally(s.tally.examined + |recs|, s.tally.rewritten + CountFits(recs, r), s.tally.skipped + CountMisfits(recs, r)))
    ensures RecordsFrom(s, r) == RecordsFrom(u, r)
    decreases |recs|
  {
    RewriteRecordsSize(recs, r);
    StoredAtSlice(s.buffer, s.cursor, EncodeRecords(recs));
    if recs == [] {
      EmptyRun(s, r, recs);
      u := s;
    } else {
      var t := FirstRecordPassed(s, r, recs);
      RecordsFromStep(s, r);
      u := RecordsThroughLayout(t, r, recs[1..]);
      JoinedState(s.buffer, s.cursor, s.tally, t.buffer, t.cursor, t.tally, s.left, r, recs);
    }
  }

  /** An empty run leaves the pass where it is. */
  lemma EmptyRun(s: PassState, r: Replacements, recs: seq<Record>)
    requires recs == [] && s.cursor <= |s.buffer|
    ensures PassState(Overwrite(s.buffer, s.cursor, EncodeRecords(RewriteRecords(recs, r))), s.left - |recs|,
                      s.cursor + |EncodeRecords(recs)|,
                      Tally(s.tally.examined + |recs|, s.tally.rewritten + CountFits(recs, r), s.tally.skipped + CountMisfits(recs, r)))
         == s
  {
    assert Overwrite(s.buffer, s.cursor, []) == s.buffer;
  }

  /** The state after the rest of the run, reached from the state after its
      first record, is the state after the whole run. */
  lemma JoinedState(p: seq<byte>, at: nat, tally: Tally, q: seq<byte>, next: nat, nextTally: Tally, left: nat,
                    r: Replacements, recs: seq<Record>)
    requires ValidRecords(recs) && recs != [] && |recs| <= left
    requires Joined(p, at, tally, q, next, nextTally, r, recs)
    ensures PassState(Overwrite(q, next, EncodeRecords(RewriteRecords(recs[1..], r))), left - 1 - |recs[1..]|,
                      next + |EncodeRecords(recs[1..])|,
                      Tally(nextTally.examined + |recs[1..]|, nextTally.rewritten + CountFits(recs[1..], r), nextTally.skipped + CountMisfits(recs[1..], r)))
         == PassState(Overwrite(p, at, EncodeRecords(RewriteRecords(recs, r))), left - |recs|,
                      at + |EncodeRecords(recs)|,
                      Tally(tally.examined + |recs|, tally.rewritten + CountFits(recs, r), tally.skipped + CountMisfits(recs, r)))
  {
  }

  /** The pass over the first of the stored records moves to a state that
      holds the remaining records, and what it leaves over those from there
      is what it leaves over them all. */
  lemma FirstRecordPassed(s: PassState, r: Replacements, recs: seq<Record>) returns (t: PassState)
    requires ValidRecords(recs) && recs != [] && StoredAt(s.buffer, s.cursor, EncodeRecords(recs)) && |recs| <= s.left
    ensures s.cursor < |s.buffer| && NextRecord(s, r).Some? && t == NextRecord(s, r).value
    ensures ValidRecords(recs[1..]) && StoredAt(t.buffer, t.cursor, EncodeRecords(recs[1..])) && t.left == s.left - 1
    ensures Joined(s.buffer, s.cursor, s.tally, t.buffer, t.cursor, t.tally, r, recs)
  {
    t := FirstRecordNext(s, r, recs);
    RestAfterFirst(s.buffer, s.cursor, s.tally, t.buffer, t.cursor, t.tally, r, recs);
  }

  /** The pass stood at `at` with `tally` before the first of `recs` and
      stands at `next` with `nextTally`, over the buffer `q`, after it: then
      what it leaves over the rest from there is what it leaves over all of
      `recs` from `at`. */
  predicate Joined(p: seq<byte>, at: nat, tally: Tally, q: seq<byte>, next: nat, nextTally: Tally,
                   r: Replacements, recs: seq<Record>)
    requires ValidRecords(recs) && recs != []
  {
    && ValidRecords(recs[1..]) && ValidRecords(RewriteRecords(recs[1..], r)) && ValidRecords(RewriteRecords(recs, r))
    && at + |EncodeRecords(recs)| <= |p| && |q| == |p|
    && next + |EncodeRecords(recs[1..])| == at + |EncodeRecords(recs)|
    && |EncodeRecords(RewriteRecords(recs[1..], r))| == |EncodeRecords(recs[1..])|
    && |EncodeRecords(RewriteRecords(recs, r))| == |EncodeRecords(recs)|
    && Overwrite(q, next, EncodeRecords(RewriteRecords(recs[1..], r))) == Overwrite(p, at, EncodeRecords(RewriteRecords(recs, r)))
    && Tally(nextTally.examined + |recs[1..]|, nextTally.rewritten + CountFits(recs[1..], r), nextTally.skipped + CountMisfits(recs[1..], r))
       == Tally(tally.examined + |recs|, tally.rewritten + CountFits(recs, r), tally.skipped + CountMisfits(recs, r))
  }

  /** The state the pass moves to after the first of the stored records. */
  lemma FirstRecordNext(s: PassState, r: Replacements, recs: seq<Record>) returns (t: PassState)
    requires ValidRecords(recs) && recs != [] && StoredAt(s.buffer, s.cursor, EncodeRecords(recs)) && |recs| <= s.left
    ensures s.cursor < |s.buffer| && NextRecord(s, r).Some? && t == NextRecord(s, r).value && t.left == s.left - 1
    ensures s.cursor + |EncodeRecord(recs[0])| <= |s.buffer|
    ensures |EncodeRecord(RewriteRecord(recs[0], r))| == |EncodeRecord(recs[0])|
    ensures t.buffer == Overwrite(s.buffer, s.cursor, EncodeRecord(RewriteRecord(recs[0], r)))
    ensures t.cursor == s.cursor + |EncodeRecord(recs[0])|
    ensures t.tally == Tally(s.tally.examined + 1, s.tally.rewritten + (if Fits(recs[0], r) then 1 else 0),
                             s.tally.skipped + (if Misfit(recs[0], r) then 1 else 0))
  {
    StoredFirstRecord(s.buffer, s.cursor, recs);
    RecordRewritten(s, r, recs[0]);
    t := NextRecord(s, r).value;
  }

  /** After the first record is rewritten and counted, the remaining records
      are still in place, and rewriting and counting them completes the
      layout of them all. */
  lemma RestAfterFirst(p: seq<byte>, at: nat, tally: Tally, q: seq<byte>, next: nat, nextTally: Tally,
                       r: Replacements, recs: seq<Record>)
    requires ValidRecords(recs) && recs != [] && StoredAt(p, at, EncodeRecords(recs))
    requires at + |EncodeRecord(recs[0])| <= |p|
    requires |EncodeRecord(RewriteRecord(recs[0], r))| == |EncodeRecord(recs[0])|
    requires q == Overwrite(p, at, EncodeRecord(RewriteRecord(recs[0], r))) && next == at + |EncodeRecord(recs[0])|
    requires nextTally == Tally(tally.examined + 1, tally.rewritten + (if Fits(recs[0], r) then 1 else 0),
                                tally.skipped + (if Misfit(recs[0], r) then 1 else 0))
    ensures ValidRecords(recs[1..]) && StoredAt(q, next, EncodeRecords(recs[1..]))
    ensures Joined(p, at, tally, q, next, nextTally, r, recs)
  {
    RestStored(p, at, q, next, r, recs);
    RewriteRecordsSize(recs[1..], r);
    RewriteRecordsSize(recs, r);
    RewrittenRecordsCons(p, at, q, next, r, recs);
    CountedRecordsCons(at, tally, next, nextTally, r, recs);
  }

  /** The records after the first are still in place once the first is
      rewritten. */
  lemma RestStored(p: seq<byte>, at: nat, q: seq<byte>, next: nat, r: Replacements, recs: seq<Record>)
    requires ValidRecords(recs) && recs != [] && StoredAt(p, at, EncodeRecords(recs))
    requires at + |EncodeRecord(recs[0])| <= |p|
    requires |EncodeRecord(RewriteRecord(recs[0], r))| == |EncodeRecord(recs[0])|
    requires q == Overwrite(p, at, EncodeRecord(RewriteRecord(recs[0], r))) && next == at + |EncodeRecord(recs[0])|
    ensures ValidRecords(recs[1..]) && at + |EncodeRecords(recs)| <= |p|
    ensures StoredAt(q, next, EncodeRecords(recs[1..]))
  {
    StoredFirstRecord(p, at, recs);
    StoredAfterOverwrite(p, at, EncodeRecord(RewriteRecord(recs[0], r)), next, EncodeRecords(recs[1..]));
  }

  /** The first of the stored records, and the rest after it. */
  lemma StoredFirstRecord(p: seq<byte>, at: nat, recs: seq<Record>)
    requires ValidRecords(recs) && recs != [] && StoredAt(p, at, EncodeRecords(recs))
    ensures ValidRecord(recs[0]) && ValidRecords(recs[1..])
    ensures StoredAt(p, at, EncodeRecord(recs[0]))
    ensures StoredAt(p, at + |EncodeRecord(recs[0])|, EncodeRecords(recs[1..]))
    ensures at + |EncodeRecords(recs)| <= |p|
  {
    EncodeRecordsCons(recs);
    StoredSplit(p, at, EncodeRecord(recs[0]), EncodeRecords(recs[1..]));
    StoredAtSlice(p, at, EncodeRecords(recs));
  }

  lemma EncodeRecordsCons(recs: seq<Record>)
    requires ValidRecords(recs) && recs != []
    ensures ValidRecord(recs[0]) && ValidRecords(recs[1..])
    ensures EncodeRecords(recs) == EncodeRecord(recs[0]) + EncodeRecords(recs[1..])
  {
  }

  /** A pass with no record left stops where it is, Complete. */
  lemma NoRecordsLeft(s: PassState, r: Replacements)
    requires s.left == 0 && s.cursor <= |s.buffer|
    ensures RecordsFrom(s, r) == PassResult(s.buffer, SectionReport(s.cursor, s.tally, Complete))
  {
  }

  /** A pass with a record left that parses goes on from the next state. */
  lemma RecordsFromStep(s: PassState, r: Replacements)
    requires s.left > 0 && s.cursor < |s.buffer| && NextRecord(s, r).Some?
    ensures RecordsFrom(s, r) == RecordsFrom(NextRecord(s, r).value, r)
  {
  }

  /** Writing the first rewritten record, then the rest, writes them all. */
  lemma RewrittenRecordsCons(p: seq<byte>, at: nat, q: seq<byte>, next: nat, r: Replacements, recs: seq<Record>)
    requires ValidRecords(recs) && recs != [] && at + |EncodeRecords(recs)| <= |p|
    requires |EncodeRecord(RewriteRecord(recs[0], r))| == |EncodeRecord(recs[0])|
    requires q == Overwrite(p, at, EncodeRecord(RewriteRecord(recs[0], r))) && next == at + |EncodeRecord(recs[0])|
    ensures ValidRecords(recs[1..]) && ValidRecords(RewriteRecords(recs[1..], r)) && ValidRecords(RewriteRecords(recs, r))
    ensures next + |EncodeRecords(RewriteRecords(recs[1..], r))| <= |q|
    ensures Overwrite(q, next, EncodeRecords(RewriteRecords(recs[1..], r))) == Overwrite(p, at, EncodeRecords(RewriteRecords(recs, r)))
  {
    RecordsFirst(recs, r);
    RewriteRecordsSize(recs[1..], r);
    OverwriteConcat(p, at, EncodeRecord(RewriteRecord(recs[0], r)), EncodeRecords(RewriteRecords(recs[1..], r)));
  }

  /** Counting the first record, then the rest, counts them all. */
  lemma CountedRecordsCons(at: nat, tally: Tally, next: nat, nextTally: Tally, r: Replacements, recs: seq<Record>)
    requires ValidRecords(recs) && recs != []
    requires next == at + |EncodeRecord(recs[0])|
    requires nextTally == Tally(tally.examined + 1, tally.rewritten + (if Fits(recs[0], r) then 1 else 0),
                                tally.skipped + (if Misfit(recs[0], r) then 1 else 0))
    ensures ValidRecords(recs[1..])
    ensures next + |EncodeRecords(recs[1..])| == at + |EncodeRecords(recs)|
    ensures Tally(nextTally.examined + |recs[1..]|, nextTally.rewritten + CountFits(recs[1..], r), nextTally.skipped + CountMisfits(recs[1..], r))
         == Tally(tally.examined + |recs|, tally.rewritten + CountFits(recs, r), tally.skipped + CountMisfits(recs, r))
  {
    RecordsFirst(recs, r);
  }

  /** A record section laid out in full: the rewritten section in place of
      the old one, the cursor just after it, every record examined. */
  lemma RecordsSectionLayout(p: seq<byte>, cursor: nat, recs: seq<Record>, r: Replacements)
    requires ValidRecords(recs) && StoredAt(p, cursor, EncodeRecords(recs))
    ensures ValidRecords(RewriteRecords(recs, r))
    ensures cursor + |EncodeRecords(recs)| <= |p|
    ensures |EncodeRecords(RewriteRecords(recs, r))| == |EncodeRecords(recs)|
    ensures RecordsSection(p, |recs|, cursor, r) == PassResult(
      Overwrite(p, cursor, EncodeRecords(RewriteRecords(recs, r))),
      SectionReport(cursor + |EncodeRecords(recs)|, Tally(|recs|, CountFits(recs, r), CountMisfits(recs, r)), Complete))
  {
    var u := RecordsThroughLayout(PassState(p, |recs|, cursor, Tally(0, 0, 0)), r, recs);
    NoRecordsLeft(u, r);
  }
}

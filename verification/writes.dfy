/** Overwrites of a byte buffer, made one after the other: where each one
    lands, the order they come in, and what the buffer holds afterwards. */
module Writes {
  import opened Wire
  import opened Names
  import opened NameProperties

  /** One overwrite of the buffer: `bytes` copied at offset `at`. */
  datatype Write = Write(at: nat, bytes: seq<byte>)

  /** Offset `i` lies in the span that `w` overwrites. */
  predicate Covers(w: Write, i: int)
  {
    w.at <= i < w.at + |w.bytes|
  }

  /** Every write lies inside a buffer of `n` bytes. */
  predicate WithinBuffer(ws: seq<Write>, n: nat)
  {
    forall j :: 0 <= j < |ws| ==> ws[j].at + |ws[j].bytes| <= n
  }

  /** Writes at increasing offsets, each ending before the next begins. */
  predicate Ordered(ws: seq<Write>)
  {
    forall j, k :: 0 <= j < k < |ws| ==> ws[j].at + |ws[j].bytes| <= ws[k].at
  }

  /** The buffer after the writes `ws`, made one after the other. */
  function ApplyWrites(p: seq<byte>, ws: seq<Write>): (q: seq<byte>)
    requires WithinBuffer(ws, |p|)
    ensures |q| == |p|
    decreases |ws|
  {
    if ws == [] then p else ApplyWrites(Overwrite(p, ws[0].at, ws[0].bytes), ws[1..])
  }

  /** A write that ends before every write of an ordered sequence can be
      put in front of it. */
  lemma ConsOrdered(w: Write, rest: seq<Write>)
    requires Ordered(rest) && forall j :: 0 <= j < |rest| ==> w.at + |w.bytes| <= rest[j].at
    ensures Ordered([w] + rest)
  {
    var ws := [w] + rest;
    forall j, k | 0 <= j < k < |ws|
      ensures ws[j].at + |ws[j].bytes| <= ws[k].at
    {
      assert ws[k] == rest[k - 1];
      if j > 0 {
        assert ws[j] == rest[j - 1];
      }
    }
  }

  /** The writes `first + rest` where `first` holds at most one write. */
  lemma FirstWriteThenRest(first: seq<Write>, rest: seq<Write>)
    requires |first| <= 1
    ensures forall j :: 0 <= j < |rest| ==> (first + rest)[|first| + j] == rest[j]
    ensures first != [] ==> (first + rest)[0] == first[0]
    ensures forall j :: 0 <= j < |first + rest| ==> (first + rest)[j] == if j < |first| then first[j] else rest[j - |first|]
  {
  }

  lemma EmptyWrites(ws: seq<Write>)
    ensures [] + ws == ws
  {
  }

  /** Making `w` then the writes `ws` is making the writes `[w] + ws`. */
  lemma ApplyWritesCons(p: seq<byte>, w: Write, ws: seq<Write>)
    requires w.at + |w.bytes| <= |p| && WithinBuffer(ws, |p|)
    ensures WithinBuffer([w] + ws, |p|)
    ensures ApplyWrites(p, [w] + ws) == ApplyWrites(Overwrite(p, w.at, w.bytes), ws)
  {
    assert ([w] + ws)[1..] == ws;
  }

  /** An offset that no write covers keeps its byte. */
  lemma {:induction false} ApplyWritesOutside(p: seq<byte>, ws: seq<Write>, i: nat)
    requires WithinBuffer(ws, |p|) && i < |p|
    requires forall j :: 0 <= j < |ws| ==> !Covers(ws[j], i)
    ensures ApplyWrites(p, ws)[i] == p[i]
    decreases |ws|
  {
    if ws != [] {
      assert !Covers(ws[0], i);
      var q := Overwrite(p, ws[0].at, ws[0].bytes);
      assert forall j :: 0 <= j < |ws[1..]| ==> ws[1..][j] == ws[j + 1];
      ApplyWritesOutside(q, ws[1..], i);
    }
  }

  /** With ordered writes, each span holds the bytes of the write that
      covers it. */
  lemma {:induction false} ApplyWritesInside(p: seq<byte>, ws: seq<Write>, k: nat, i: nat)
    requires WithinBuffer(ws, |p|) && Ordered(ws) && k < |ws| && Covers(ws[k], i)
    ensures ApplyWrites(p, ws)[i] == ws[k].bytes[i - ws[k].at]
    decreases |ws|
  {
    var q := Overwrite(p, ws[0].at, ws[0].bytes);
    assert forall j :: 0 <= j < |ws[1..]| ==> ws[1..][j] == ws[j + 1];
    assert ApplyWrites(p, ws) == ApplyWrites(q, ws[1..]);
    if k == 0 {
      assert q[i] == ws[0].bytes[i - ws[0].at] by {
        assert q[ws[0].at..ws[0].at + |ws[0].bytes|] == ws[0].bytes;
      }
      ApplyWritesOutside(q, ws[1..], i);
    } else {
      assert ws[1..][k - 1] == ws[k];
      ApplyWritesInside(q, ws[1..], k - 1, i);
    }
  }

  /** Writes placed one after the other stay inside the buffer. */
  lemma ConcatWithin(a: seq<Write>, b: seq<Write>, n: nat)
    requires WithinBuffer(a, n) && WithinBuffer(b, n)
    ensures WithinBuffer(a + b, n)
  {
    forall j | 0 <= j < |a + b|
      ensures (a + b)[j].at + |(a + b)[j].bytes| <= n
    {
      if j < |a| {
        assert (a + b)[j] == a[j];
      } else {
        assert (a + b)[j] == b[j - |a|];
      }
    }
  }

  /** Making the writes `a + b` is making `a`, then `b`. */
  lemma {:induction false} ApplyWritesConcat(p: seq<byte>, a: seq<Write>, b: seq<Write>)
    requires WithinBuffer(a, |p|) && WithinBuffer(b, |p|)
    ensures WithinBuffer(a + b, |p|)
    ensures ApplyWrites(p, a + b) == ApplyWrites(ApplyWrites(p, a), b)
    decreases |a|
  {
    ConcatWithin(a, b, |p|);
    if a == [] {
      EmptyWrites(b);
    } else {
      var q := Overwrite(p, a[0].at, a[0].bytes);
      assert (a + b)[0] == a[0];
      assert (a + b)[1..] == a[1..] + b;
      assert forall j :: 0 <= j < |a[1..]| ==> a[1..][j] == a[j + 1];
      ApplyWritesConcat(q, a[1..], b);
    }
  }

  /** Two ordered runs of writes, the first ending at or before `m` and the
      second starting at or after it, make one ordered run. */
  lemma OrderedConcat(a: seq<Write>, b: seq<Write>, m: nat)
    requires Ordered(a) && Ordered(b)
    requires forall j :: 0 <= j < |a| ==> a[j].at + |a[j].bytes| <= m
    requires forall k :: 0 <= k < |b| ==> m <= b[k].at
    ensures Ordered(a + b)
  {
    var ws := a + b;
    forall j, k | 0 <= j < k < |ws|
      ensures ws[j].at + |ws[j].bytes| <= ws[k].at
    {
      if k < |a| {
        assert ws[j] == a[j] && ws[k] == a[k];
      } else if j < |a| {
        assert ws[j] == a[j] && ws[k] == b[k - |a|];
      } else {
        assert ws[j] == b[j - |a|] && ws[k] == b[k - |a|];
      }
    }
  }

  /** Making ordered writes a second time changes nothing. */
  lemma ApplyWritesTwice(p: seq<byte>, ws: seq<Write>)
    requires WithinBuffer(ws, |p|) && Ordered(ws)
    ensures ApplyWrites(ApplyWrites(p, ws), ws) == ApplyWrites(p, ws)
  {
    var q := ApplyWrites(p, ws);
    forall i | 0 <= i < |q|
      ensures ApplyWrites(q, ws)[i] == q[i]
    {
      if k :| 0 <= k < |ws| && Covers(ws[k], i) {
        ApplyWritesInside(p, ws, k, i);
        ApplyWritesInside(q, ws, k, i);
      } else {
        ApplyWritesOutside(q, ws, i);
      }
    }
  }

  /** No write of `ws` covers a position of `x`. */
  ghost predicate Spared(x: set<nat>, ws: seq<Write>)
  {
    forall i, k | i in x && 0 <= k < |ws| :: !Covers(ws[k], i)
  }

  /** Positions no write covers keep their bytes. */
  lemma WritesKeep(p: seq<byte>, ws: seq<Write>, x: set<nat>)
    requires WithinBuffer(ws, |p|) && Spared(x, ws)
    ensures AgreeOn(p, ApplyWrites(p, ws), x)
  {
    forall i | i in x && i < |p|
      ensures p[i] == ApplyWrites(p, ws)[i]
    {
      ApplyWritesOutside(p, ws, i);
    }
  }

  /** Two buffers that agree on positions no write covers still agree there
      after the same writes. */
  lemma ApplyWritesAgree(p: seq<byte>, q: seq<byte>, x: set<nat>, ws: seq<Write>)
    requires AgreeOn(p, q, x) && WithinBuffer(ws, |p|) && Spared(x, ws)
    ensures AgreeOn(ApplyWrites(p, ws), ApplyWrites(q, ws), x)
  {
    WritesKeep(p, ws, x);
    WritesKeep(q, ws, x);
  }

  /** Positions untouched by `a + b` are untouched by `a` and by `b`, and so
      are their subsets. */
  lemma SparedParts(x: set<nat>, y: set<nat>, a: seq<Write>, b: seq<Write>)
    requires Spared(x, a + b) && y <= x
    ensures Spared(y, a) && Spared(y, b)
  {
    forall i, k | i in y && 0 <= k < |a|
      ensures !Covers(a[k], i)
    {
      assert (a + b)[k] == a[k];
    }
    forall i, k | i in y && 0 <= k < |b|
      ensures !Covers(b[k], i)
    {
      assert (a + b)[|a| + k] == b[k];
    }
  }
}

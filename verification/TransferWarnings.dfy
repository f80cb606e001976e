/** The extractor's warnings, value by value and in order, and which transfer each is about. */
module TransferWarnings {
  import opened Basics
  import opened IsoTp
  import opened Transfers

  // ------------------------------------------------------------------
  // The session a message meets
  // ------------------------------------------------------------------

  /** The last session of a capture, unless it exited. */
  function OpenSession(ms: seq<Message>): Option<Session> {
    var ss := Sessions(ms);
    if ss == [] || ss[|ss| - 1].exit.Some? then None else Some(ss[|ss| - 1])
  }

  /** Whether a request or an exit ends the session that is open at the start. */
  predicate Ended(ms: seq<Message>) {
    exists i :: 0 <= i < |ms| && (IsRequest(ms[i]) || IsExit(ms[i]))
  }

  lemma EndedStep(ms: seq<Message>)
    requires ms != []
    ensures Ended(ms) <==> IsRequest(ms[0]) || IsExit(ms[0]) || Ended(ms[1..])
  {
    if Ended(ms[1..]) {
      var i :| 0 <= i < |ms| - 1 && (IsRequest(ms[1..][i]) || IsExit(ms[1..][i]));
      assert ms[1..][i] == ms[i + 1];
    }
    if i :| 0 <= i < |ms| && (IsRequest(ms[i]) || IsExit(ms[i])) {
      assert i > 0 ==> ms[1..][i - 1] == ms[i];
    }
  }

  /** What a message adds to the session it meets. */
  function Extended(s: Session, m: Message): Session {
    if s.exit.Some? || IsRequest(m) then s
    else if IsExit(m) then s.(exit := Some(m.ms))
    else if IsBlock(m) then s.(blocks := s.blocks + [m])
    else s
  }

  lemma {:induction false} OpenBlocksSnoc(ms: seq<Message>, m: Message)
    ensures OpenBlocks(ms + [m]) == OpenBlocks(ms) + if !Ended(ms) && !IsRequest(m) && IsBlock(m) then [m] else []
    ensures ExitTime(ms + [m])
         == if !Ended(ms) && !IsRequest(m) && IsExit(m) then Some(m.ms) else ExitTime(ms)
    decreases |ms|
  {
    hide IsRequest, IsBlock, IsExit;
    if ms == [] {
      BlockOrExit(m);
      assert [m][1..] == [];
    } else {
      BlockOrExit(ms[0]);
      EndedStep(ms);
      OpenBlocksSnoc(ms[1..], m);
      assert (ms + [m])[0] == ms[0] && (ms + [m])[1..] == ms[1..] + [m];
    }
  }

  lemma BlockOrExit(m: Message)
    ensures !(IsBlock(m) && IsExit(m)) && !(IsBlock(m) && IsRequest(m)) && !(IsExit(m) && IsRequest(m))
  {
  }

  /** With no session after it, a stretch ended if and only if it exited. */
  lemma {:induction false} EndedExactly(ms: seq<Message>)
    ensures Ended(ms) <==> Sessions(ms) != [] || ExitTime(ms).Some?
    decreases |ms|
  {
    hide IsRequest, IsExit;
    if ms != [] {
      EndedStep(ms);
      EndedExactly(ms[1..]);
    }
  }

  /** Sessions with one more message: a new one, or the last one extended. */
  function OneMore(ss: seq<Session>, m: Message): seq<Session> {
    if IsRequest(m) then ss + [Session(m, [], None)]
    else if ss == [] then []
    else ss[..|ss| - 1] + [Extended(ss[|ss| - 1], m)]
  }

  lemma {:induction false} SessionsSnoc(ms: seq<Message>, m: Message)
    ensures Sessions(ms + [m]) == OneMore(Sessions(ms), m)
    decreases |ms|
  {
    hide IsBlock, IsExit;
    if ms == [] {
      assert [m][1..] == [];
    } else {
      var rest := ms[1..];
      assert (ms + [m])[0] == ms[0] && (ms + [m])[1..] == rest + [m];
      SessionsSnoc(rest, m);
      if IsRequest(ms[0]) {
        OpenBlocksSnoc(rest, m);
        EndedExactly(rest);
        BlockOrExit(m);
        var s := Session(ms[0], OpenBlocks(rest), ExitTime(rest));
        HeadSession(s, Sessions(rest), m);
        assert OpenBlocks(rest) + [] == OpenBlocks(rest);
        assert Sessions(ms + [m]) == [if Ended(rest) || IsRequest(m) then s else Extended(s, m)] + Sessions(rest + [m]);
      }
    }
  }

  lemma HeadSession(s: Session, ss: seq<Session>, m: Message)
    ensures ss != [] || IsRequest(m) ==> OneMore([s] + ss, m) == [s] + OneMore(ss, m)
    ensures ss == [] && !IsRequest(m) ==> OneMore([s] + ss, m) == [Extended(s, m)]
  {
    hide Extended, IsRequest;
    if ss != [] {
      assert ([s] + ss)[..|ss|] == [s] + ss[..|ss| - 1];
    } else {
      assert [s] + ss == [s];
    }
  }

  // ------------------------------------------------------------------
  // The warning list
  // ------------------------------------------------------------------

  /** The counter of the last block. */
  function LastCounter(bs: seq<Block>): Option<Byte> {
    if bs == [] then None else Some(bs[|bs| - 1].app[1])
  }

  /** A block that changes the SID of its session, or breaks its counter. */
  function BlockWarnings(bs: seq<Block>, m: Block): seq<Warning> {
    if bs == [] then []
    else
      var sid, counter := bs[0].app[0], bs[|bs| - 1].app[1];
      (if m.app[0] != sid then [MixedSid(m.ms, sid, m.app[0])] else [])
      + (if m.app[1] != Succ(counter) then [SeqGap(m.ms, Succ(counter), m.app[1])] else [])
  }

  /** What `m` gives rise to, arriving after `pre`. */
  function RaisedBy(pre: seq<Message>, m: Message): seq<Warning> {
    if m.app != [] && IsRequestSid(m.app[0]) && !IsRequest(m) then [Malformed(m.app[0], m.ms)]
    else if OpenSession(pre).None? then []
    else
      var s := OpenSession(pre).value;
      var t := Summary(s);
      if IsRequest(m) then [Superseded(m.app[0], m.ms, t.address, t.receivedSize, t.declaredSize)]
      else if IsBlock(m) then BlockWarnings(s.blocks, m)
      else []
  }

  /** What the messages `more` give rise to, one by one, after `pre`. */
  function Raised(pre: seq<Message>, more: seq<Message>): seq<Warning>
    decreases |more|
  {
    if more == [] then []
    else Raised(pre, more[..|more| - 1]) + RaisedBy(pre + more[..|more| - 1], more[|more| - 1])
  }

  /** A session still open when the capture ends. */
  function RaisedAtEnd(ms: seq<Message>): seq<Warning> {
    if OpenSession(ms).None? then []
    else
      var t := Summary(OpenSession(ms).value);
      [Truncated(t.address, t.receivedSize, t.declaredSize)]
  }

  lemma {:induction false} BodiesSnoc(bs: seq<Block>, m: Block)
    ensures Bodies(bs + [m]) == Bodies(bs) + m.app[2..]
    ensures Counters(bs + [m]) == Counters(bs) + [m.app[1]]
  {
    if bs == [] {
      assert bs + [m] == [m] && [m][1..] == [];
    } else {
      BodiesSnoc(bs[1..], m);
      assert (bs + [m])[0] == bs[0] && (bs + [m])[1..] == bs[1..] + [m];
      Assoc(bs[0].app[2..], Bodies(bs[1..]), m.app[2..]);
    }
  }

  /** The counter before the next one, when counting started at `prev`. */
  function Before(prev: Option<Byte>, cs: seq<Byte>): Option<Byte> {
    if cs == [] then prev else Some(cs[|cs| - 1])
  }

  lemma {:induction false} CountersSnoc(prev: Option<Byte>, cs: seq<Byte>, c: Byte)
    ensures Wraps(prev, cs + [c]) == Wraps(prev, cs) + if Before(prev, cs) == Some(255) && c == 0 then 1 else 0
    ensures var b := Before(prev, cs);
      Gaps(prev, cs + [c]) == Gaps(prev, cs) + if b.Some? && c != Succ(b.value) then 1 else 0
    decreases |cs|
  {
    hide Succ;
    if cs == [] {
      assert cs + [c] == [c] && [c][1..] == [];
    } else {
      CountersSnoc(Some(cs[0]), cs[1..], c);
      assert (cs + [c])[0] == cs[0] && (cs + [c])[1..] == cs[1..] + [c];
    }
  }

  lemma {:induction false} LastCounterIs(bs: seq<Block>)
    ensures LastCounter(bs) == Before(None, Counters(bs))
  {
    if bs != [] {
      LastCounterIs(bs[1..]);
    }
  }

  lemma SummaryExtends(s: Session, m: Block)
    requires s.exit.None?
    ensures Summary(s.(blocks := s.blocks + [m])) == OnBlock(Summary(s), LastCounter(s.blocks), m.app)
  {
    hide DecodeRequest;
    BodiesSnoc(s.blocks, m);
    CountersSnoc(None, Counters(s.blocks), m.app[1]);
    LastCounterIs(s.blocks);
  }

  /** The machine's state, read off the sessions so far. */
  predicate Reflects(w: Walk, ms: seq<Message>) {
    && (OpenSession(ms).None? ==> w.current.None?)
    && (OpenSession(ms).Some? ==>
          w.current == Some(Summary(OpenSession(ms).value)) && w.lastSeq == LastCounter(OpenSession(ms).value.blocks))
  }

  lemma OpenSnoc(ms: seq<Message>, m: Message)
    ensures OpenSession(ms + [m])
         == if IsRequest(m) then Some(Session(m, [], None))
            else if OpenSession(ms).None? || IsExit(m) then None
            else Some(Extended(OpenSession(ms).value, m))
  {
    hide IsRequest, IsBlock, IsExit;
    BlockOrExit(m);
    SessionsSnoc(ms, m);
  }

  lemma BlockStepReflects(w: Walk, ms: seq<Message>, m: Message)
    requires Reflects(w, ms) && IsBlock(m)
    ensures Reflects(OnMessage(w, m), ms + [m])
    ensures OnMessage(w, m).warnings == w.warnings + RaisedBy(ms, m)
  {
    hide Summary, Sessions;
    BlockOrExit(m);
    OpenSnoc(ms, m);
    if OpenSession(ms).None? {
      assert w.warnings + [] == w.warnings;
    } else {
      var s := OpenSession(ms).value;
      SummaryExtends(s, m);
      SummaryCounts(s);
      Assoc(w.warnings, MixWarnings(Summary(s), m), GapWarnings(w.lastSeq, m));
    }
  }

  lemma SummaryCounts(s: Session)
    ensures Summary(s).blockCount == |s.blocks|
    ensures s.blocks != [] ==> Summary(s).transferSid == s.blocks[0].app[0]
  {
  }

  lemma StepReflects(w: Walk, ms: seq<Message>, m: Message)
    requires Reflects(w, ms)
    ensures Reflects(OnMessage(w, m), ms + [m])
    ensures OnMessage(w, m).warnings == w.warnings + RaisedBy(ms, m)
  {
    hide Sessions;
    if IsBlock(m) {
      BlockStepReflects(w, ms, m);
    } else {
      OpenSnoc(ms, m);
      assert w.warnings + [] == w.warnings;
      assert Bodies([]) == [] && Counters([]) == [];
    }
  }

  lemma {:induction false} WalkReflects(ms: seq<Message>)
    ensures Reflects(WalkAll(Start, ms), ms)
    ensures WalkAll(Start, ms).warnings == Raised([], ms)
    decreases |ms|
  {
    hide OnMessage, RaisedBy;
    if ms == [] {
      NothingOpen();
    } else {
      var pre, m := ms[..|ms| - 1], ms[|ms| - 1];
      WalkReflects(pre);
      WalkAppend(Start, pre, [m]);
      WalkCons(WalkAll(Start, pre), m, []);
      assert ms == pre + [m] && [m] + [] == [m] && [] + pre == pre;
      StepReflects(WalkAll(Start, pre), pre, m);
    }
  }

  lemma NothingOpen()
    ensures Reflects(Start, [])
  {
  }

  /** The warnings of a capture, all of them, in order. */
  lemma WarningsListed(ms: seq<Message>)
    ensures Extract(ms).1 == Raised([], ms) + RaisedAtEnd(ms)
  {
    hide Sessions, Summary;
    WalkReflects(ms);
    OpenIsUnexited(ms);
  }

  lemma OpenIsUnexited(ms: seq<Message>)
    ensures OpenSession(ms).Some? ==> OpenSession(ms).value.exit.None?
  {
  }

  // ------------------------------------------------------------------
  // Which transfer a warning is about
  // ------------------------------------------------------------------

  predicate NoRequest(ms: seq<Message>) {
    forall i :: 0 <= i < |ms| ==> !IsRequest(ms[i])
  }

  /** The capture around its `i`-th well-formed request `r`: `seg` runs up to the next one. */
  ghost predicate Cut(ms: seq<Message>, i: nat, a: seq<Message>, r: Message, seg: seq<Message>, b: seq<Message>) {
    && ms == a + [r] + seg + b
    && |Sessions(a)| == i
    && IsRequest(r) && NoRequest(seg)
    && (b == [] || IsRequest(b[0]))
  }

  lemma {:induction false} UpToRequest(ms: seq<Message>) returns (seg: seq<Message>, b: seq<Message>)
    ensures ms == seg + b && NoRequest(seg) && (b == [] || IsRequest(b[0]))
  {
    if ms == [] || IsRequest(ms[0]) {
      seg, b := [], ms;
    } else {
      var rest;
      rest, b := UpToRequest(ms[1..]);
      seg := [ms[0]] + rest;
      Assoc([ms[0]], rest, b);
    }
  }

  /** Every transfer has its stretch of the capture. */
  lemma {:induction false} CutExists(ms: seq<Message>, i: nat)
    returns (a: seq<Message>, r: Message, seg: seq<Message>, b: seq<Message>)
    requires i < |Sessions(ms)|
    ensures Cut(ms, i, a, r, seg, b)
    decreases |ms|
  {
    hide IsRequest;
    if IsRequest(ms[0]) && i == 0 {
      a, r := [], ms[0];
      seg, b := UpToRequest(ms[1..]);
      assert [] + [r] + seg + b == [r] + (seg + b);
    } else {
      a, r, seg, b := CutExists(ms[1..], if IsRequest(ms[0]) then i - 1 else i);
      assert ms == [ms[0]] + ms[1..] && [ms[0]] + (a + [r] + seg + b) == ([ms[0]] + a) + [r] + seg + b;
      a := [ms[0]] + a;
      assert a[1..] == ms[1..][..|a| - 1] && a[0] == ms[0];
    }
  }

  /** The session `r` opens, as far as `seg` takes it. */
  lemma {:induction false} SegmentSession(pre: seq<Message>, r: Message, seg: seq<Message>)
    requires IsRequest(r) && NoRequest(seg)
    ensures Sessions(pre + [r] + seg) == Sessions(pre) + [Session(r, OpenBlocks(seg), ExitTime(seg))]
    decreases |seg|
  {
    hide IsBlock, IsExit;
    if seg == [] {
      SessionsSnoc(pre, r);
      assert pre + [r] + [] == pre + [r];
    } else {
      var less, m := seg[..|seg| - 1], seg[|seg| - 1];
      assert seg == less + [m];
      SegmentSession(pre, r, less);
      Assoc(pre + [r], less, [m]);
      SessionsSnoc(pre + [r] + less, m);
      OpenBlocksSnoc(less, m);
      BlockOrExit(m);
      EndedExactly(less);
      NoSessions(less);
      assert OpenBlocks(less) + [] == OpenBlocks(less);
      var s := Session(r, OpenBlocks(less), ExitTime(less));
      assert (Sessions(pre) + [s])[..|Sessions(pre)|] == Sessions(pre);
      assert Extended(s, m) == Session(r, OpenBlocks(seg), ExitTime(seg));
    }
  }

  lemma {:induction false} NoSessions(ms: seq<Message>)
    requires NoRequest(ms)
    ensures Sessions(ms) == []
  {
    if ms != [] {
      NoSessions(ms[1..]);
    }
  }

  /** Later requests leave earlier sessions alone. */
  lemma {:induction false} LaterRequests(pre: seq<Message>, b: seq<Message>)
    requires b == [] || IsRequest(b[0])
    ensures |Sessions(pre + b)| >= |Sessions(pre)| + if b == [] then 0 else 1
    ensures Sessions(pre + b)[..|Sessions(pre)|] == Sessions(pre)
    decreases |b|
  {
    hide IsRequest, Extended;
    if b == [] {
      assert pre + b == pre;
    } else {
      var less, m := b[..|b| - 1], b[|b| - 1];
      assert b == less + [m] && (less != [] ==> less[0] == b[0]);
      Assoc(pre, less, [m]);
      LaterRequests(pre, less);
      SessionsSnoc(pre + less, m);
    }
  }

  /** A warning that a block counter does not follow its predecessor. */
  function GapCount(ws: seq<Warning>): nat {
    Count(CounterGap, ws)
  }

  lemma {:induction false} CountSplit(k: Kind, a: seq<Warning>, b: seq<Warning>)
    ensures Count(k, a + b) == Count(k, a) + Count(k, b)
    decreases |b|
  {
    if b == [] {
      assert a + b == a;
    } else {
      var less, w := b[..|b| - 1], b[|b| - 1];
      CountSplit(k, a, less);
      assert b == less + [w] && a + b == (a + less) + [w];
      CountSnoc(k, a + less, w);
    }
  }

  /** Gap warnings raised by one message that is no request: one if it is a block out of step. */
  lemma GapsOfMessage(pre: seq<Message>, m: Message)
    requires !IsRequest(m)
    ensures GapCount(RaisedBy(pre, m))
         == if OpenSession(pre).Some? && IsBlock(m) then
              var b := LastCounter(OpenSession(pre).value.blocks);
              if b.Some? && m.app[1] != Succ(b.value) then 1 else 0
            else 0
  {
    hide Summary, Sessions, Succ;
    BlockOrExit(m);
    var ws := RaisedBy(pre, m);
    assert |ws| <= 2;
    CountOf(CounterGap, ws);
  }

  lemma CountOf(k: Kind, ws: seq<Warning>)
    requires |ws| <= 2
    ensures Count(k, ws) == (if |ws| > 0 && KindOf(ws[0]) == k then 1 else 0)
                          + if |ws| > 1 && KindOf(ws[1]) == k then 1 else 0
  {
    if |ws| == 1 {
      assert ws == [] + [ws[0]];
      CountSnoc(k, [], ws[0]);
    } else if |ws| == 2 {
      assert ws == [] + [ws[0]] + [ws[1]];
      CountSnoc(k, [], ws[0]);
      CountSnoc(k, [] + [ws[0]], ws[1]);
    }
  }

  /** Before `m`, the session of the stretch is open unless it exited. */
  lemma OpenInSegment(pre: seq<Message>, r: Message, seg: seq<Message>)
    requires IsRequest(r) && NoRequest(seg)
    ensures OpenSession(pre + [r] + seg) == if Ended(seg) then None else Some(Session(r, OpenBlocks(seg), None))
  {
    hide IsRequest, IsExit, OpenBlocks;
    SegmentSession(pre, r, seg);
    EndedExactly(seg);
    NoSessions(seg);
  }

  /** One more message moves the gaps of a stretch as it moves the gap warnings. */
  lemma GapsStep(pre: seq<Message>, r: Message, less: seq<Message>, m: Message)
    requires IsRequest(r) && NoRequest(less) && !IsRequest(m)
    ensures Gaps(None, Counters(OpenBlocks(less + [m])))
         == Gaps(None, Counters(OpenBlocks(less))) + GapCount(RaisedBy(pre + [r] + less, m))
  {
    hide IsRequest, RaisedBy, Succ, OpenBlocks, Ended;
    var bs := OpenBlocks(less);
    OpenInSegment(pre, r, less);
    GapsOfMessage(pre + [r] + less, m);
    OpenBlocksSnoc(less, m);
    LastCounterIs(bs);
    if IsBlock(m) && !Ended(less) {
      BodiesSnoc(bs, m);
      CountersSnoc(None, Counters(bs), m.app[1]);
    } else {
      assert bs + [] == bs;
    }
  }

  lemma {:induction false} SegmentGaps(pre: seq<Message>, r: Message, seg: seq<Message>)
    requires IsRequest(r) && NoRequest(seg)
    ensures GapCount(Raised(pre + [r], seg)) == Gaps(None, Counters(OpenBlocks(seg)))
    decreases |seg|
  {
    hide IsRequest, RaisedBy, Gaps, Counters;
    if seg == [] {
      NoGaps();
    } else {
      var less, m := seg[..|seg| - 1], seg[|seg| - 1];
      assert seg == less + [m];
      SegmentGaps(pre, r, less);
      CountSplit(CounterGap, Raised(pre + [r], less), RaisedBy(pre + [r] + less, m));
      GapsStep(pre, r, less, m);
    }
  }

  lemma NoGaps()
    ensures Gaps(None, Counters(OpenBlocks([]))) == 0
  {
  }

  lemma {:induction false} RaisedSplit(pre: seq<Message>, x: seq<Message>, y: seq<Message>)
    ensures Raised(pre, x + y) == Raised(pre, x) + Raised(pre + x, y)
    decreases |y|
  {
    hide RaisedBy;
    if y == [] {
      assert x + y == x && Raised(pre, x) + [] == Raised(pre, x);
    } else {
      var less, m := y[..|y| - 1], y[|y| - 1];
      assert y == less + [m] && x + y == (x + less) + [m];
      assert (x + y)[..|x + y| - 1] == x + less;
      RaisedSplit(pre, x, less);
      Assoc(pre, x, less);
      Assoc(Raised(pre, x), Raised(pre + x, less), RaisedBy(pre + x + less, m));
    }
  }

  /**
   The stretch of the `i`-th transfer has its own part of the warning list, and the gap warnings
   in it number exactly the gaps of that transfer's block counters.
   */
  lemma GapsAttributed(ms: seq<Message>, i: nat, a: seq<Message>, r: Message, seg: seq<Message>, b: seq<Message>)
    requires Cut(ms, i, a, r, seg, b)
    ensures i < |Sessions(ms)| && Sessions(ms)[i] == Session(r, OpenBlocks(seg), ExitTime(seg))
    ensures Extract(ms).1
         == Raised([], a + [r]) + Raised(a + [r], seg) + Raised(a + [r] + seg, b) + RaisedAtEnd(ms)
    ensures GapCount(Raised(a + [r], seg)) == Gaps(None, Counters(Sessions(ms)[i].blocks))
  {
    hide RaisedBy, RaisedAtEnd, OpenBlocks, ExitTime;
    var pre := a + [r] + seg;
    SegmentSession(a, r, seg);
    LaterRequests(pre, b);
    assert Sessions(ms)[i] == Sessions(ms)[..i + 1][i];
    WarningsListed(ms);
    RaisedSplit([], a + [r], seg);
    RaisedSplit([], pre, b);
    assert [] + (a + [r]) == a + [r] && [] + pre == pre;
    SegmentGaps(a, r, seg);
  }

  /** Without a gap warning in a transfer's own stretch, its wrap count is the counter's closed form. */
  lemma WrapsUnlessWarned(ms: seq<Message>, i: nat, a: seq<Message>, r: Message, seg: seq<Message>, b: seq<Message>)
    requires Cut(ms, i, a, r, seg, b) && GapCount(Raised(a + [r], seg)) == 0
    ensures i < |Sessions(ms)| && |Extract(ms).0| == |Sessions(ms)|
    ensures var t, s := Extract(ms).0[i], Sessions(ms)[i];
      s.blocks != [] ==> t.blockSeqWraps == (s.blocks[0].app[1] + t.blockCount - 1) / 256
  {
    GapsAttributed(ms, i, a, r, seg, b);
    Conservation(ms, i);
  }
}

/** Extraction of RequestDownload / TransferData / RequestTransferExit sequences. */
module Transfers {
  // `OnMessage` is the state machine over reassembled request messages. `Sessions` is an
  // independent reading of the same trace: a transfer is a well-formed request and the blocks
  // between it and the next exit or request. `Recovered` connects the two for every trace.

  import opened Basics
  import opened IsoTp

  const SID_REQUEST_DOWNLOAD: Byte := 0x34
  const SID_REQUEST_UPLOAD: Byte := 0x35
  const SID_TRANSFER_DATA: Byte := 0x36
  const SID_REQUEST_TRANSFER_EXIT: Byte := 0x37
  const SID_SUBARU_BULK_TRANSFER: Byte := 0xB6

  datatype Request = Request(format: Byte, alf: Byte, address: nat, size: nat)

  /** `_decode_request_download`. */
  function DecodeRequest(app: Bytes): Option<Request> {
    if |app| < 3 || !IsRequestSid(app[0]) then None
    else
      var aw, sw := app[2] % 16, app[2] / 16;
      if aw == 0 || aw > 4 || sw == 0 || sw > 4 || |app| < 3 + aw + sw then None
      else Some(Request(app[1], app[2], FromBigEndian(app[3..3 + aw]), FromBigEndian(app[3 + aw..3 + aw + sw])))
  }

  predicate IsRequestSid(sid: Byte) {
    sid == SID_REQUEST_DOWNLOAD || sid == SID_REQUEST_UPLOAD
  }

  predicate IsBlockSid(sid: Byte) {
    sid == SID_TRANSFER_DATA || sid == SID_SUBARU_BULK_TRANSFER
  }

  datatype Transfer = Transfer(
    upload: bool,
    address: nat,
    declaredSize: nat,
    receivedSize: nat,
    format: Byte,
    alf: Byte,
    transferSid: Byte,
    blockCount: nat,
    blockSeqWraps: nat,
    payload: Bytes,
    requestMs: int,
    exitMs: int)

  datatype Warning =
    | Malformed(sid: Byte, ms: int)
    | Superseded(sid: Byte, ms: int, address: nat, received: nat, declared: nat)
    | MixedSid(ms: int, first: Byte, saw: Byte)
    | SeqGap(ms: int, expected: Byte, got: Byte)
    | Truncated(address: nat, received: nat, declared: nat)

  // ------------------------------------------------------------------
  // The state machine
  // ------------------------------------------------------------------

  datatype Walk = Walk(done: seq<Transfer>, current: Option<Transfer>, lastSeq: Option<Byte>, warnings: seq<Warning>)

  const Start := Walk([], None, None, [])

  function Opened(sid: Byte, r: Request, ms: int): Transfer {
    Transfer(sid == SID_REQUEST_UPLOAD, r.address, r.size, 0, r.format, r.alf, SID_TRANSFER_DATA, 0, 0, [], ms, -1)
  }

  function OnRequest(w: Walk, msg: Message): Walk
    requires msg.app != []
  {
    var sid := msg.app[0];
    match DecodeRequest(msg.app)
    case None => w.(warnings := w.warnings + [Malformed(sid, msg.ms)])
    case Some(r) =>
      var next := Some(Opened(sid, r, msg.ms));
      if w.current.None? then w.(current := next, lastSeq := None)
      else
        var c := w.current.value;
        Walk(w.done + [c], next, None,
             w.warnings + [Superseded(sid, msg.ms, c.address, c.receivedSize, c.declaredSize)])
  }

  function MixWarnings(t: Transfer, msg: Message): seq<Warning>
    requires |msg.app| >= 2
  {
    if t.blockCount != 0 && msg.app[0] != t.transferSid then [MixedSid(msg.ms, t.transferSid, msg.app[0])] else []
  }

  function GapWarnings(lastSeq: Option<Byte>, msg: Message): seq<Warning>
    requires |msg.app| >= 2
  {
    if lastSeq.Some? && msg.app[1] != Succ(lastSeq.value) then [SeqGap(msg.ms, Succ(lastSeq.value), msg.app[1])] else []
  }

  /** The block counter after `b`: it wraps 0xFF to 0x00 (ISO 14229-1 section 14.4). */
  function Succ(b: Byte): Byte {
    if b == 255 then 0 else b + 1
  }

  function OnBlock(t: Transfer, lastSeq: Option<Byte>, app: Bytes): Transfer
    requires |app| >= 2
  {
    t.(transferSid := if t.blockCount == 0 then app[0] else t.transferSid,
       blockSeqWraps := t.blockSeqWraps + if lastSeq == Some(255) && app[1] == 0 then 1 else 0,
       payload := t.payload + app[2..],
       receivedSize := t.receivedSize + |app[2..]|,
       blockCount := t.blockCount + 1)
  }

  function OnMessage(w: Walk, msg: Message): Walk {
    if msg.app == [] then w
    else if IsRequestSid(msg.app[0]) then OnRequest(w, msg)
    else if w.current.None? then w
    else if IsBlockSid(msg.app[0]) then
      if |msg.app| < 2 then w
      else
        Walk(w.done, Some(OnBlock(w.current.value, w.lastSeq, msg.app)), Some(msg.app[1]),
             w.warnings + MixWarnings(w.current.value, msg) + GapWarnings(w.lastSeq, msg))
    else if msg.app[0] == SID_REQUEST_TRANSFER_EXIT then
      Walk(w.done + [w.current.value.(exitMs := msg.ms)], None, None, w.warnings)
    else w
  }

  function WalkAll(w: Walk, ms: seq<Message>): Walk
    decreases |ms|
  {
    if ms == [] then w else WalkAll(OnMessage(w, ms[0]), ms[1..])
  }

  /** End of capture: a transfer still open is reported and emitted as it stands. */
  function Finish(w: Walk): (seq<Transfer>, seq<Warning>) {
    match w.current
    case None => (w.done, w.warnings)
    case Some(c) => (w.done + [c], w.warnings + [Truncated(c.address, c.receivedSize, c.declaredSize)])
  }

  function Extract(ms: seq<Message>): (seq<Transfer>, seq<Warning>) {
    Finish(WalkAll(Start, ms))
  }

  lemma {:induction false} WalkAppend(w: Walk, a: seq<Message>, b: seq<Message>)
    ensures WalkAll(w, a + b) == WalkAll(WalkAll(w, a), b)
    decreases |a|
  {
    if a == [] {
      assert a + b == b;
    } else {
      WalkAppend(OnMessage(w, a[0]), a[1..], b);
      assert (a + b)[1..] == a[1..] + b;
    }
  }

  /** Messages the machine passes over: other services, and blocks without a counter. */
  predicate PassedOver(m: Message) {
    || m.app == []
    || (IsBlockSid(m.app[0]) && |m.app| < 2)
    || (!IsRequestSid(m.app[0]) && !IsBlockSid(m.app[0]) && m.app[0] != SID_REQUEST_TRANSFER_EXIT)
  }

  function Telling(ms: seq<Message>): seq<Message> {
    if ms == [] then []
    else if PassedOver(ms[0]) then Telling(ms[1..])
    else [ms[0]] + Telling(ms[1..])
  }

  lemma {:induction false} TellingSuffices(w: Walk, ms: seq<Message>)
    ensures WalkAll(w, Telling(ms)) == WalkAll(w, ms)
    decreases |ms|
  {
    if ms != [] {
      TellingSuffices(OnMessage(w, ms[0]), ms[1..]);
      if !PassedOver(ms[0]) {
        assert Telling(ms)[1..] == Telling(ms[1..]);
      }
    }
  }

  // ------------------------------------------------------------------
  // Reference reading of a trace
  // ------------------------------------------------------------------

  predicate IsRequest(m: Message) {
    m.app != [] && DecodeRequest(m.app).Some?
  }

  predicate IsBlock(m: Message) {
    |m.app| >= 2 && IsBlockSid(m.app[0])
  }

  predicate IsExit(m: Message) {
    m.app != [] && m.app[0] == SID_REQUEST_TRANSFER_EXIT
  }

  type RequestMessage = m: Message | IsRequest(m) witness Message(0, [0x34, 0, 0x11, 0, 0])

  type Block = m: Message | IsBlock(m) witness Message(0, [0x36, 1])

  /** A well-formed request, the data blocks that belong to it, and when it exited, if it did. */
  datatype Session = Session(request: RequestMessage, blocks: seq<Block>, exit: Option<int>)

  /** The data blocks before the next exit or well-formed request. */
  function OpenBlocks(ms: seq<Message>): seq<Block> {
    if ms == [] || IsRequest(ms[0]) || IsExit(ms[0]) then []
    else if IsBlock(ms[0]) then [ms[0]] + OpenBlocks(ms[1..])
    else OpenBlocks(ms[1..])
  }

  /** When the transfer that is open at the start of `ms` exits, unless a request or the end comes first. */
  function ExitTime(ms: seq<Message>): Option<int> {
    if ms == [] || IsRequest(ms[0]) then None
    else if IsExit(ms[0]) then Some(ms[0].ms)
    else ExitTime(ms[1..])
  }

  function OrNever(exit: Option<int>): int {
    if exit.Some? then exit.value else -1
  }

  function Sessions(ms: seq<Message>): seq<Session> {
    if ms == [] then []
    else if IsRequest(ms[0]) then
      [Session(ms[0], OpenBlocks(ms[1..]), ExitTime(ms[1..]))] + Sessions(ms[1..])
    else Sessions(ms[1..])
  }

  function Bodies(bs: seq<Block>): Bytes {
    if bs == [] then [] else bs[0].app[2..] + Bodies(bs[1..])
  }

  /** The block counters, in order. */
  function Counters(bs: seq<Block>): seq<Byte> {
    if bs == [] then [] else [bs[0].app[1]] + Counters(bs[1..])
  }

  /** How often the counter goes from 0xFF to 0x00, counting from `prev`. */
  function Wraps(prev: Option<Byte>, cs: seq<Byte>): nat
    decreases |cs|
  {
    if cs == [] then 0
    else (if prev == Some(255) && cs[0] == 0 then 1 else 0) + Wraps(Some(cs[0]), cs[1..])
  }

  /** How often a counter does not follow its predecessor, counting from `prev`. */
  function Gaps(prev: Option<Byte>, cs: seq<Byte>): nat
    decreases |cs|
  {
    if cs == [] then 0
    else (if prev.Some? && cs[0] != Succ(prev.value) then 1 else 0) + Gaps(Some(cs[0]), cs[1..])
  }

  /** The transfer a session amounts to. */
  function Summary(s: Session): Transfer {
    var r := DecodeRequest(s.request.app).value;
    Transfer(
      s.request.app[0] == SID_REQUEST_UPLOAD, r.address, r.size, |Bodies(s.blocks)|, r.format, r.alf,
      if s.blocks == [] then SID_TRANSFER_DATA else s.blocks[0].app[0],
      |s.blocks|, Wraps(None, Counters(s.blocks)), Bodies(s.blocks), s.request.ms, OrNever(s.exit))
  }

  function Summaries(ss: seq<Session>): seq<Transfer> {
    if ss == [] then [] else [Summary(ss[0])] + Summaries(ss[1..])
  }

  // ------------------------------------------------------------------
  // The state machine computes the reference reading
  // ------------------------------------------------------------------

  /** `t` after the blocks `bs`, the last counter seen before them being `last`. */
  function Absorb(t: Transfer, last: Option<Byte>, bs: seq<Block>): Transfer
    decreases |bs|
  {
    if bs == [] then t else Absorb(OnBlock(t, last, bs[0].app), Some(bs[0].app[1]), bs[1..])
  }

  lemma {:induction false} AbsorbTotals(t: Transfer, last: Option<Byte>, bs: seq<Block>)
    ensures Absorb(t, last, bs) ==
      t.(payload := t.payload + Bodies(bs),
         receivedSize := t.receivedSize + |Bodies(bs)|,
         blockCount := t.blockCount + |bs|,
         blockSeqWraps := t.blockSeqWraps + Wraps(last, Counters(bs)),
         transferSid := if t.blockCount == 0 && bs != [] then bs[0].app[0] else t.transferSid)
    decreases |bs|
  {
    if bs == [] {
      assert t.payload + [] == t.payload;
    } else {
      AbsorbTotals(OnBlock(t, last, bs[0].app), Some(bs[0].app[1]), bs[1..]);
      assert (t.payload + bs[0].app[2..]) + Bodies(bs[1..]) == t.payload + Bodies(bs);
      assert Counters(bs)[1..] == Counters(bs[1..]);
    }
  }

  /** A fresh transfer that absorbs a session's blocks and exits is that session's summary. */
  lemma OpenedAbsorbs(s: Session)
    ensures Absorb(Opened(s.request.app[0], DecodeRequest(s.request.app).value, s.request.ms), None, s.blocks)
      .(exitMs := OrNever(s.exit)) == Summary(s)
  {
    AbsorbTotals(Opened(s.request.app[0], DecodeRequest(s.request.app).value, s.request.ms), None, s.blocks);
    assert [] + Bodies(s.blocks) == Bodies(s.blocks);
  }

  /** What the machine emits from `w` on: the open transfer completed, then one per later session. */
  function Pending(w: Walk, ms: seq<Message>): seq<Transfer> {
    match w.current
    case None => Summaries(Sessions(ms))
    case Some(t) => [Absorb(t, w.lastSeq, OpenBlocks(ms)).(exitMs := OrNever(ExitTime(ms)))] + Summaries(Sessions(ms))
  }

  /** An open transfer's exit time is not set yet. */
  predicate Unexited(w: Walk) {
    w.current.Some? ==> w.current.value.exitMs == -1
  }

  lemma RequestStep(w: Walk, ms: seq<Message>)
    requires Unexited(w) && ms != [] && IsRequest(ms[0])
    ensures w.done + Pending(w, ms) == OnMessage(w, ms[0]).done + Pending(OnMessage(w, ms[0]), ms[1..])
  {
    OpenedAbsorbs(Session(ms[0], OpenBlocks(ms[1..]), ExitTime(ms[1..])));
  }

  lemma BlockStep(w: Walk, ms: seq<Message>)
    requires ms != [] && w.current.Some? && IsBlock(ms[0])
    ensures w.done + Pending(w, ms) == OnMessage(w, ms[0]).done + Pending(OnMessage(w, ms[0]), ms[1..])
  {
    var bs := [ms[0]] + OpenBlocks(ms[1..]);
    assert OpenBlocks(ms) == bs && bs[1..] == OpenBlocks(ms[1..]);
  }

  lemma ExitStep(w: Walk, ms: seq<Message>)
    requires ms != [] && w.current.Some? && IsExit(ms[0])
    ensures w.done + Pending(w, ms) == OnMessage(w, ms[0]).done + Pending(OnMessage(w, ms[0]), ms[1..])
  {
  }

  lemma OtherStep(w: Walk, ms: seq<Message>)
    requires ms != [] && !IsRequest(ms[0]) && (w.current.Some? ==> !IsBlock(ms[0]) && !IsExit(ms[0]))
    ensures w.done + Pending(w, ms) == OnMessage(w, ms[0]).done + Pending(OnMessage(w, ms[0]), ms[1..])
  {
  }

  lemma {:induction false} WalkRecovers(w: Walk, ms: seq<Message>)
    requires Unexited(w)
    ensures Finish(WalkAll(w, ms)).0 == w.done + Pending(w, ms)
    decreases |ms|
  {
    if ms != [] {
      WalkRecovers(OnMessage(w, ms[0]), ms[1..]);
      if IsRequest(ms[0]) {
        RequestStep(w, ms);
      } else if w.current.Some? && IsBlock(ms[0]) {
        BlockStep(w, ms);
      } else if w.current.Some? && IsExit(ms[0]) {
        ExitStep(w, ms);
      } else {
        OtherStep(w, ms);
      }
    }
  }

  /**
   On every trace, however corrupt: one transfer per well-formed request, in order, and each
   is the summary of its session.
   */
  lemma Recovered(ms: seq<Message>)
    ensures Extract(ms).0 == Summaries(Sessions(ms))
  {
    WalkRecovers(Start, ms);
  }

  // ------------------------------------------------------------------
  // Warnings
  // ------------------------------------------------------------------

  /** Kinds of irregularity; a transfer cut off by a new request or by the end counts as unclosed. */
  datatype Kind = BadRequest | Unclosed | MixedSids | CounterGap

  function KindOf(w: Warning): Kind {
    match w
    case Malformed(_, _) => BadRequest
    case Superseded(_, _, _, _, _) => Unclosed
    case Truncated(_, _, _) => Unclosed
    case MixedSid(_, _, _) => MixedSids
    case SeqGap(_, _, _) => CounterGap
  }

  function Count(k: Kind, ws: seq<Warning>): nat {
    if ws == [] then 0 else Count(k, ws[..|ws| - 1]) + if KindOf(ws[|ws| - 1]) == k then 1 else 0
  }

  lemma CountSnoc(k: Kind, ws: seq<Warning>, w: Warning)
    ensures Count(k, ws + [w]) == Count(k, ws) + if KindOf(w) == k then 1 else 0
  {
    assert (ws + [w])[..|ws|] == ws;
  }

  /** Blocks carried by another SID than the one that started the transfer. */
  function Mixed(sid: Option<Byte>, bs: seq<Block>): nat
    decreases |bs|
  {
    if bs == [] then 0
    else if sid.None? then Mixed(Some(bs[0].app[0]), bs[1..])
    else (if bs[0].app[0] != sid.value then 1 else 0) + Mixed(sid, bs[1..])
  }

  /** What is irregular about a stretch of blocks and how it ends. */
  function Irregular(k: Kind, sid: Option<Byte>, last: Option<Byte>, bs: seq<Block>, exit: Option<int>): nat {
    match k
    case BadRequest => 0
    case Unclosed => if exit.None? then 1 else 0
    case MixedSids => Mixed(sid, bs)
    case CounterGap => Gaps(last, Counters(bs))
  }

  /** The irregularities of a trace: undecodable requests, and those of each session. */
  function Irregularities(k: Kind, ms: seq<Message>): nat {
    if ms == [] then 0
    else if IsRequest(ms[0]) then
      Irregular(k, None, None, OpenBlocks(ms[1..]), ExitTime(ms[1..])) + Irregularities(k, ms[1..])
    else
      (if k == BadRequest && ms[0].app != [] && IsRequestSid(ms[0].app[0]) then 1 else 0) + Irregularities(k, ms[1..])
  }

  function CarriedSid(t: Transfer): Option<Byte> {
    if t.blockCount == 0 then None else Some(t.transferSid)
  }

  /** What is still to be warned about from `w` on. */
  function PendingCount(k: Kind, w: Walk, ms: seq<Message>): nat {
    Irregularities(k, ms) +
    if w.current.None? then 0
    else Irregular(k, CarriedSid(w.current.value), w.lastSeq, OpenBlocks(ms), ExitTime(ms))
  }

  lemma BadRequestCount(k: Kind, w: Walk, ms: seq<Message>)
    requires ms != [] && ms[0].app != [] && IsRequestSid(ms[0].app[0]) && !IsRequest(ms[0])
    ensures Count(k, w.warnings) + PendingCount(k, w, ms) ==
      Count(k, OnMessage(w, ms[0]).warnings) + PendingCount(k, OnMessage(w, ms[0]), ms[1..])
  {
    hide Irregular, Count;
    CountSnoc(k, w.warnings, Malformed(ms[0].app[0], ms[0].ms));
    Skipped(ms);
  }

  lemma Skipped(ms: seq<Message>)
    requires ms != [] && !IsRequest(ms[0]) && !IsExit(ms[0]) && !IsBlock(ms[0])
    ensures OpenBlocks(ms) == OpenBlocks(ms[1..]) && ExitTime(ms) == ExitTime(ms[1..])
  {
  }

  lemma RequestCount(k: Kind, w: Walk, ms: seq<Message>)
    requires ms != [] && IsRequest(ms[0])
    ensures Count(k, w.warnings) + PendingCount(k, w, ms) ==
      Count(k, OnMessage(w, ms[0]).warnings) + PendingCount(k, OnMessage(w, ms[0]), ms[1..])
  {
    assert OpenBlocks(ms) == [] && ExitTime(ms) == None;
    if w.current.Some? {
      var c := w.current.value;
      CountSnoc(k, w.warnings, Superseded(ms[0].app[0], ms[0].ms, c.address, c.receivedSize, c.declaredSize));
    }
  }

  lemma CountAtMostOne(k: Kind, ws: seq<Warning>, a: seq<Warning>)
    requires |a| <= 1
    ensures Count(k, ws + a) == Count(k, ws) + Hit(k, a)
  {
    if a == [] {
      assert ws + a == ws;
    } else {
      assert a == [a[0]];
      CountSnoc(k, ws, a[0]);
    }
  }

  function Hit(k: Kind, a: seq<Warning>): nat {
    if a != [] && KindOf(a[0]) == k then 1 else 0
  }

  /** A block's own irregularities are the warnings it raises. */
  lemma IrregularBlock(k: Kind, t: Transfer, last: Option<Byte>, m: Block, rest: seq<Block>, exit: Option<int>)
    ensures Irregular(k, CarriedSid(t), last, [m] + rest, exit) ==
      Hit(k, MixWarnings(t, m)) + Hit(k, GapWarnings(last, m)) +
      Irregular(k, CarriedSid(OnBlock(t, last, m.app)), Some(m.app[1]), rest, exit)
  {
    var bs := [m] + rest;
    assert bs[1..] == rest;
    assert Counters(bs) == [m.app[1]] + Counters(rest);
  }

  lemma BlockCount(k: Kind, w: Walk, ms: seq<Message>)
    requires ms != [] && w.current.Some? && IsBlock(ms[0])
    ensures Count(k, w.warnings) + PendingCount(k, w, ms) ==
      Count(k, OnMessage(w, ms[0]).warnings) + PendingCount(k, OnMessage(w, ms[0]), ms[1..])
  {
    var t, m := w.current.value, ms[0];
    IrregularBlock(k, t, w.lastSeq, m, OpenBlocks(ms[1..]), ExitTime(ms[1..]));
    var mixed := MixWarnings(t, m);
    CountAtMostOne(k, w.warnings, mixed);
    CountAtMostOne(k, w.warnings + mixed, GapWarnings(w.lastSeq, m));
  }

  lemma {:induction false} WalkCounts(k: Kind, w: Walk, ms: seq<Message>)
    ensures Count(k, Finish(WalkAll(w, ms)).1) == Count(k, w.warnings) + PendingCount(k, w, ms)
    decreases |ms|
  {
    if ms == [] {
      if w.current.Some? {
        var c := w.current.value;
        CountSnoc(k, w.warnings, Truncated(c.address, c.receivedSize, c.declaredSize));
      }
    } else {
      WalkCounts(k, OnMessage(w, ms[0]), ms[1..]);
      if IsRequest(ms[0]) {
        RequestCount(k, w, ms);
      } else if ms[0].app != [] && IsRequestSid(ms[0].app[0]) {
        BadRequestCount(k, w, ms);
      } else if w.current.Some? && IsBlock(ms[0]) {
        BlockCount(k, w, ms);
      }
    }
  }

  lemma NoneOfAnyKind(ws: seq<Warning>)
    requires forall k :: Count(k, ws) == 0
    ensures ws == []
  {
    if ws != [] {
      assert Count(KindOf(ws[|ws| - 1]), ws) > 0;
    }
  }

  /** A capture with nothing to warn about. */
  ghost predicate Regular(ms: seq<Message>) {
    forall k: Kind :: Irregularities(k, ms) == 0
  }

  /** The warnings of a capture, kind by kind, are exactly its irregularities. */
  lemma WarningsExact(ms: seq<Message>)
    ensures forall k: Kind :: Count(k, Extract(ms).1) == Irregularities(k, ms)
    ensures Extract(ms).1 == [] <==> Regular(ms)
  {
    var ws := Extract(ms).1;
    forall k: Kind
      ensures Count(k, ws) == Irregularities(k, ms)
    {
      WalkCounts(k, Start, ms);
    }
    if Regular(ms) {
      assert forall k: Kind :: Irregularities(k, ms) == 0;
      NoneOfAnyKind(ws);
    } else {
      var k: Kind :| Irregularities(k, ms) != 0;
      assert Count(k, ws) != 0;
    }
  }

  // ------------------------------------------------------------------
  // Conservation
  // ------------------------------------------------------------------

  lemma {:induction false} WrapsFrom(prev: Byte, cs: seq<Byte>)
    requires Gaps(Some(prev), cs) == 0
    ensures Wraps(Some(prev), cs) == (prev + |cs|) / 256
    decreases |cs|
  {
    if cs != [] {
      WrapsFrom(cs[0], cs[1..]);
    }
  }

  lemma {:induction false} SummariesAt(ss: seq<Session>, i: nat)
    requires i < |ss|
    ensures |Summaries(ss)| == |ss| && Summaries(ss)[i] == Summary(ss[i])
  {
    if i > 0 {
      SummariesAt(ss[1..], i - 1);
    } else if |ss| > 1 {
      SummariesAt(ss[1..], 0);
    }
  }

  lemma {:induction false} CountersLength(bs: seq<Block>)
    ensures |Counters(bs)| == |bs|
  {
    if bs != [] {
      CountersLength(bs[1..]);
    }
  }

  function SumOfBodies(bs: seq<Block>): nat {
    if bs == [] then 0 else |bs[0].app| - 2 + SumOfBodies(bs[1..])
  }

  lemma {:induction false} BodiesLength(bs: seq<Block>)
    ensures |Bodies(bs)| == SumOfBodies(bs)
  {
    if bs != [] {
      BodiesLength(bs[1..]);
    }
  }

  /**
   Conservation on arbitrary traces. The `i`-th transfer is that of the `i`-th well-formed
   request: what was received is the payload and the sum of its block bodies, and if its own
   counters have no gap the wrap count is their closed form.
   */
  lemma Conservation(ms: seq<Message>, i: nat)
    requires i < |Sessions(ms)|
    ensures |Extract(ms).0| == |Sessions(ms)|
    ensures var t, s := Extract(ms).0[i], Sessions(ms)[i];
      && t.requestMs == s.request.ms
      && t.receivedSize == |t.payload| == SumOfBodies(s.blocks)
      && t.blockCount == |s.blocks|
      && (Gaps(None, Counters(s.blocks)) == 0 && s.blocks != [] ==>
            t.blockSeqWraps == (s.blocks[0].app[1] + t.blockCount - 1) / 256)
  {
    Recovered(ms);
    SummariesAt(Sessions(ms), i);
    var bs := Sessions(ms)[i].blocks;
    BodiesLength(bs);
    if bs != [] && Gaps(None, Counters(bs)) == 0 {
      CountersLength(bs);
      WrapsFrom(bs[0].app[1], Counters(bs)[1..]);
    }
  }

  // ------------------------------------------------------------------
  // Where the payload comes from
  // ------------------------------------------------------------------

  predicate AllBare(bs: seq<Block>) {
    forall i :: 0 <= i < |bs| ==> |bs[i].app| == 2
  }

  lemma {:induction false} BareBodies(bs: seq<Block>)
    ensures Bodies(bs) == [] <==> AllBare(bs)
  {
    if bs != [] {
      BareBodies(bs[1..]);
      assert |Bodies(bs)| == |bs[0].app| - 2 + |Bodies(bs[1..])|;
      assert AllBare(bs) <==> |bs[0].app| == 2 && AllBare(bs[1..]) by {
        assert forall i :: 1 <= i < |bs| ==> bs[i] == bs[1..][i - 1];
        assert forall i :: 0 <= i < |bs| - 1 ==> bs[1..][i] == bs[i + 1];
      }
    }
  }

  /**
   A transfer's payload is empty exactly when the tester's block messages are bare counters, as
   they are in an upload, whose data travels in the replies.
   */
  lemma EmptyPayloadExact(ms: seq<Message>, i: nat)
    requires i < |Sessions(ms)|
    ensures |Extract(ms).0| == |Sessions(ms)|
    ensures Extract(ms).0[i].payload == [] <==> AllBare(Sessions(ms)[i].blocks)
  {
    Recovered(ms);
    SummariesAt(Sessions(ms), i);
    BareBodies(Sessions(ms)[i].blocks);
  }

  /** `35` for 512 bytes at 0x10. */
  const UPLOAD_REQUEST: Bytes := [0x35, 0, 0x21, 0x10, 2, 0]

  lemma UploadRequestDecodes()
    ensures DecodeRequest(UPLOAD_REQUEST) == Some(Request(0, 0x21, 0x10, 512))
  {
    assert UPLOAD_REQUEST[3..4] == [0x10] && UPLOAD_REQUEST[4..6] == [2, 0];
    assert FromBigEndian([0x10]) == 0x10;
    assert [2, 0][..1] == [2] && FromBigEndian([2]) == 2 && FromBigEndian([2, 0]) == 512;
  }

  /** An upload of 512 bytes in two blocks: the extractor reports two blocks and no data. */
  lemma UploadLosesData()
    ensures Extract([Message(0, UPLOAD_REQUEST), Message(1, [0x36, 1]), Message(2, [0x36, 2]), Message(3, [0x37])])
         == ([Transfer(true, 0x10, 512, 0, 0, 0x21, 0x36, 2, 0, [], 0, 3)], [])
  {
    hide DecodeRequest, FromBigEndian;
    UploadRequestDecodes();
    var r, b, c, x := Message(0, UPLOAD_REQUEST), Message(1, [0x36, 1]), Message(2, [0x36, 2]), Message(3, [0x37]);
    var t0 := Transfer(true, 0x10, 512, 0, 0, 0x21, 0x36, 0, 0, [], 0, -1);
    var t1, t2 := t0.(blockCount := 1), t0.(blockCount := 2);
    assert OnMessage(Start, r) == Walk([], Some(t0), None, []);
    assert b.app[2..] == [] && c.app[2..] == [];
    assert OnBlock(t0, None, b.app) == t1 && OnBlock(t1, Some(1), c.app) == t2;
    assert OnMessage(Walk([], Some(t0), None, []), b) == Walk([], Some(t1), Some(1), []);
    assert OnMessage(Walk([], Some(t1), Some(1), []), c) == Walk([], Some(t2), Some(2), []);
    assert OnMessage(Walk([], Some(t2), Some(2), []), x) == Walk([t2.(exitMs := 3)], None, None, []);
    WalkFour(Start, r, b, c, x);
  }

  lemma WalkFour(w: Walk, a: Message, b: Message, c: Message, d: Message)
    ensures WalkAll(w, [a, b, c, d]) == OnMessage(OnMessage(OnMessage(OnMessage(w, a), b), c), d)
  {
    hide OnMessage;
    WalkCons(w, a, [b, c, d]);
    WalkCons(OnMessage(w, a), b, [c, d]);
    WalkCons(OnMessage(OnMessage(w, a), b), c, [d]);
    WalkCons(OnMessage(OnMessage(OnMessage(w, a), b), c), d, []);
  }

  lemma WalkCons(w: Walk, m: Message, ms: seq<Message>)
    ensures WalkAll(w, [m] + ms) == WalkAll(OnMessage(w, m), ms)
  {
    assert ([m] + ms)[1..] == ms;
  }
}

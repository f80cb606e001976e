/** `extract_transfers` over raw frames, with its mutable reassemblers and transfer records. */
module TransferExtraction {
  import opened Basics
  import opened IsoTp
  import opened Transfers
  import R = Reassembly

  /** The `Transfer` dataclass: opened by a request, then updated in place block by block. */
  class LiveTransfer {
    const upload: bool
    const address: nat
    const declaredSize: nat
    const format: Byte
    const alf: Byte
    const requestMs: int
    var receivedSize: nat
    var transferSid: Byte
    var blockCount: nat
    var blockSeqWraps: nat
    var payload: Bytes
    var exitMs: int

    constructor (sid: Byte, r: Request, ms: int)
      ensures Value() == Opened(sid, r, ms)
    {
      upload, address, declaredSize := sid == SID_REQUEST_UPLOAD, r.address, r.size;
      format, alf, requestMs := r.format, r.alf, ms;
      receivedSize, transferSid, blockCount, blockSeqWraps := 0, SID_TRANSFER_DATA, 0, 0;
      payload, exitMs := [], -1;
    }

    ghost function Value(): Transfer
      reads this
    {
      Transfer(upload, address, declaredSize, receivedSize, format, alf, transferSid,
               blockCount, blockSeqWraps, payload, requestMs, exitMs)
    }
  }

  ghost function Values(ts: seq<LiveTransfer>): seq<Transfer>
    reads ts
  {
    if ts == [] then [] else Values(ts[..|ts| - 1]) + [ts[|ts| - 1].Value()]
  }

  lemma ValuesSnoc(ts: seq<LiveTransfer>, t: LiveTransfer)
    ensures Values(ts + [t]) == Values(ts) + [t.Value()]
  {
    assert (ts + [t])[..|ts|] == ts;
  }

  /** The walk so far, read off the loop's variables. */
  ghost function StateOf(ts: seq<LiveTransfer>, current: LiveTransfer?, lastSeq: Option<Byte>, ws: seq<Warning>): Walk
    reads ts, current
  {
    Walk(Values(ts), if current == null then None else Some(current.Value()), lastSeq, ws)
  }

  /** A data block on the open transfer. */
  method AddBlock(current: LiveTransfer, lastSeq: Option<Byte>, msg: Message, warnings: seq<Warning>)
    returns (warnings': seq<Warning>)
    requires |msg.app| >= 2
    modifies current
    ensures current.Value() == OnBlock(old(current.Value()), lastSeq, msg.app)
    ensures warnings' == warnings + MixWarnings(old(current.Value()), msg) + GapWarnings(lastSeq, msg)
  {
    warnings' := warnings;
    var sid, counter, data := msg.app[0], msg.app[1], msg.app[2..];
    if current.blockCount == 0 {
      current.transferSid := sid;
    } else if sid != current.transferSid {
      warnings' := warnings' + [MixedSid(msg.ms, current.transferSid, sid)];
    }
    if lastSeq.Some? {
      var expected := Succ(lastSeq.value);
      if counter != expected {
        warnings' := warnings' + [SeqGap(msg.ms, expected, counter)];
      }
      if lastSeq.value == 0xFF && counter == 0x00 {
        current.blockSeqWraps := current.blockSeqWraps + 1;
      }
    }
    current.payload := current.payload + data;
    current.receivedSize := current.receivedSize + |data|;
    current.blockCount := current.blockCount + 1;
  }

  /** The dispatch on one reassembled request message. */
  method Handle(msg: Message, transfers: seq<LiveTransfer>, current: LiveTransfer?, lastSeq: Option<Byte>,
                warnings: seq<Warning>)
    returns (transfers': seq<LiveTransfer>, current': LiveTransfer?, lastSeq': Option<Byte>, warnings': seq<Warning>)
    requires current !in transfers
    modifies current
    ensures current' !in transfers'
    ensures forall t <- transfers' :: t in transfers || t == current
    ensures current' == null || current' == current || fresh(current')
    ensures StateOf(transfers', current', lastSeq', warnings') ==
      OnMessage(old(StateOf(transfers, current, lastSeq, warnings)), msg)
  {
    transfers', current', lastSeq', warnings' := transfers, current, lastSeq, warnings;
    if |msg.app| < 1 {
      return;
    }
    var sid := msg.app[0];
    if sid == SID_REQUEST_DOWNLOAD || sid == SID_REQUEST_UPLOAD {
      var decoded := DecodeRequest(msg.app);
      if decoded.None? {
        warnings' := warnings + [Malformed(sid, msg.ms)];
        return;
      }
      if current != null {
        warnings' := warnings + [Superseded(sid, msg.ms, current.address, current.receivedSize, current.declaredSize)];
        transfers' := transfers + [current];
        ValuesSnoc(transfers, current);
      }
      current' := new LiveTransfer(sid, decoded.value, msg.ms);
      lastSeq' := None;
    } else if IsBlockSid(sid) && current != null {
      if |msg.app| >= 2 {
        warnings' := AddBlock(current, lastSeq, msg, warnings);
        lastSeq' := Some(msg.app[1]);
      }
    } else if sid == SID_REQUEST_TRANSFER_EXIT && current != null {
      current.exitMs := msg.ms;
      transfers' := transfers + [current];
      ValuesSnoc(transfers, current);
      current', lastSeq' := null, None;
    }
  }

  /** What is in flight on the request ID after the first `i` frames. */
  function ReqPending(frames: seq<Frame>, id: int, i: nat): Option<Pending>
    requires i <= |frames|
  {
    After(None, OfId(id, frames[..i]))
  }

  /** The request messages completed by the first `i` frames. */
  function ReqMessages(frames: seq<Frame>, id: int, i: nat): seq<Message>
    requires i <= |frames|
  {
    Messages(None, OfId(id, frames[..i]))
  }

  lemma NextFrame(frames: seq<Frame>, id: int, i: nat)
    requires i < |frames|
    ensures frames[i].id != id ==>
      && ReqPending(frames, id, i + 1) == ReqPending(frames, id, i)
      && ReqMessages(frames, id, i + 1) == ReqMessages(frames, id, i)
    ensures frames[i].id == id ==>
      var (p, out) := Next(ReqPending(frames, id, i), frames[i].data);
      && ReqPending(frames, id, i + 1) == p
      && ReqMessages(frames, id, i + 1) ==
           if out.Some? then ReqMessages(frames, id, i) + [Message(frames[i].ms, out.value)]
           else ReqMessages(frames, id, i)
  {
    var pre, f := frames[..i], frames[i];
    assert frames[..i + 1] == pre + [f];
    OfIdAppend(id, pre, [f]);
    if f.id == id {
      assert OfId(id, [f]) == [f];
      AfterAppend(None, OfId(id, pre), [f]);
      MessagesAppend(None, OfId(id, pre), [f]);
      var p, out := ReqPending(frames, id, i), Next(ReqPending(frames, id, i), f.data).1;
      assert Messages(p, [f]) == if out.Some? then [Message(f.ms, out.value)] else [];
      assert ReqMessages(frames, id, i) + [] == ReqMessages(frames, id, i);
    } else {
      assert OfId(id, [f]) == [];
      assert OfId(id, pre) + [] == OfId(id, pre);
    }
  }

  lemma NextMessage(frames: seq<Frame>, id: int, i: nat, msg: Message)
    requires i < |frames| && ReqMessages(frames, id, i + 1) == ReqMessages(frames, id, i) + [msg]
    ensures WalkAll(Start, ReqMessages(frames, id, i + 1)) == OnMessage(WalkAll(Start, ReqMessages(frames, id, i)), msg)
  {
    WalkAppend(Start, ReqMessages(frames, id, i), [msg]);
  }

  /** Two reassemblers that share no mutable entry. */
  ghost predicate Apart(a: R.Reassembler, b: R.Reassembler)
    reads a, b, a.pending.Values, b.pending.Values
  {
    a != b && a.Valid() && b.Valid() && a.pending.Values !! b.pending.Values
  }

  /** The reassembly half of the frame loop: a completed request message, if `f` completes one. */
  method Reassemble(req: R.Reassembler, resp: R.Reassembler, f: Frame, requestId: int, responseId: int)
    returns (msg: Option<Bytes>)
    requires Apart(req, resp)
    modifies req, resp, req.pending.Values, resp.pending.Values
    ensures Apart(req, resp)
    ensures fresh(req.pending.Values - old(req.pending.Values))
    ensures fresh(resp.pending.Values - old(resp.pending.Values))
    ensures f.id == requestId ==>
      var (p, out) := Next(old(R.Get(req.State(), requestId)), f.data);
      R.Get(req.State(), requestId) == p && msg == out
    ensures f.id != requestId ==> req.State() == old(req.State()) && msg == None
  {
    msg := None;
    if f.id == requestId {
      msg := req.Feed(f.id, f.data);
    } else if f.id == responseId {
      var _ := resp.Feed(f.id, f.data);
      assert forall o :: o in req.pending.Values ==> old(allocated(o)) && o !in old(resp.pending.Values);
    }
  }

  /** One frame of the request ID, or any other frame: reassembly, then the walk. */
  function FrameStep(p: Option<Pending>, w: Walk, f: Frame, requestId: int): (Option<Pending>, Walk) {
    if f.id != requestId then (p, w)
    else
      var (p', out) := Next(p, f.data);
      (p', if out.Some? then OnMessage(w, Message(f.ms, out.value)) else w)
  }

  /** The body of the frame loop. */
  method OnFrame(req: R.Reassembler, resp: R.Reassembler, f: Frame, requestId: int, responseId: int,
                 transfers: seq<LiveTransfer>, current: LiveTransfer?, lastSeq: Option<Byte>, warnings: seq<Warning>)
    returns (transfers': seq<LiveTransfer>, current': LiveTransfer?, lastSeq': Option<Byte>, warnings': seq<Warning>)
    requires Apart(req, resp) && current !in transfers
    modifies req, resp, req.pending.Values, resp.pending.Values, current
    ensures Apart(req, resp) && current' !in transfers'
    ensures fresh(req.pending.Values - old(req.pending.Values))
    ensures fresh(resp.pending.Values - old(resp.pending.Values))
    ensures current' == null || current' == current || fresh(current')
    ensures (R.Get(req.State(), requestId), StateOf(transfers', current', lastSeq', warnings')) ==
      FrameStep(old(R.Get(req.State(), requestId)), old(StateOf(transfers, current, lastSeq, warnings)), f, requestId)
  {
    transfers', current', lastSeq', warnings' := transfers, current, lastSeq, warnings;
    ghost var w := StateOf(transfers, current, lastSeq, warnings);
    var app := Reassemble(req, resp, f, requestId, responseId);
    assert StateOf(transfers, current, lastSeq, warnings) == w;
    if app.Some? {
      transfers', current', lastSeq', warnings' :=
        Handle(Message(f.ms, app.value), transfers, current, lastSeq, warnings);
    }
  }

  /** `FrameStep` keeps pace with the trace. */
  lemma FrameStepAt(frames: seq<Frame>, id: int, i: nat)
    requires i < |frames|
    ensures FrameStep(ReqPending(frames, id, i), WalkAll(Start, ReqMessages(frames, id, i)), frames[i], id) ==
      (ReqPending(frames, id, i + 1), WalkAll(Start, ReqMessages(frames, id, i + 1)))
  {
    NextFrame(frames, id, i);
    var out := Next(ReqPending(frames, id, i), frames[i].data).1;
    if frames[i].id == id && out.Some? {
      NextMessage(frames, id, i, Message(frames[i].ms, out.value));
    }
  }

  /** The frame loop as a fold. */
  function LoopFrom(p: Option<Pending>, w: Walk, frames: seq<Frame>, requestId: int): (Option<Pending>, Walk)
    decreases |frames|
  {
    if frames == [] then (p, w)
    else
      var (p', w') := FrameStep(p, w, frames[0], requestId);
      LoopFrom(p', w', frames[1..], requestId)
  }

  lemma {:induction false} LoopExtracts(p: Option<Pending>, w: Walk, frames: seq<Frame>, requestId: int)
    ensures var own := OfId(requestId, frames);
      LoopFrom(p, w, frames, requestId) == (After(p, own), WalkAll(w, Messages(p, own)))
    decreases |frames|
  {
    hide Next, OnMessage;
    if frames != [] {
      var (p', w') := FrameStep(p, w, frames[0], requestId);
      LoopExtracts(p', w', frames[1..], requestId);
      var own := OfId(requestId, frames);
      if frames[0].id == requestId {
        assert own[0] == frames[0] && own[1..] == OfId(requestId, frames[1..]);
        var out := Next(p, frames[0].data).1;
        if out.Some? {
          WalkCons(w, Message(frames[0].ms, out.value), Messages(p', own[1..]));
        }
      }
    }
  }

  /** Captures that agree on the request ID extract alike, whatever the ECU replied. */
  lemma RepliesIrrelevant(one: seq<Frame>, other: seq<Frame>, requestId: int)
    requires OfId(requestId, one) == OfId(requestId, other)
    ensures LoopFrom(None, Start, one, requestId) == LoopFrom(None, Start, other, requestId)
    ensures Finish(LoopFrom(None, Start, one, requestId).1) == Extract(Messages(None, OfId(requestId, other)))
  {
    LoopExtracts(None, Start, one, requestId);
    LoopExtracts(None, Start, other, requestId);
  }

  /**
   The frame loop: feeds both directions, acts on completed requests, and emits a transfer
   left open by the end of the capture.
   */
  method ExtractTransfers(frames: seq<Frame>, requestId: int, responseId: int)
    returns (transfers: seq<LiveTransfer>, warnings: seq<Warning>)
    ensures (Values(transfers), warnings) == Extract(Messages(None, OfId(requestId, frames)))
  {
    transfers, warnings := [], [];
    var reqReassembler := new R.Reassembler();
    var respReassembler := new R.Reassembler();
    var current: LiveTransfer? := null;
    var lastSeq: Option<Byte> := None;
    for i := 0 to |frames|
      invariant Apart(reqReassembler, respReassembler) && current !in transfers
      invariant fresh(reqReassembler) && fresh(reqReassembler.pending.Values)
      invariant fresh(respReassembler) && fresh(respReassembler.pending.Values)
      invariant current != null ==> fresh(current)
      invariant R.Get(reqReassembler.State(), requestId) == ReqPending(frames, requestId, i)
      invariant StateOf(transfers, current, lastSeq, warnings) == WalkAll(Start, ReqMessages(frames, requestId, i))
    {
      FrameStepAt(frames, requestId, i);
      transfers, current, lastSeq, warnings :=
        OnFrame(reqReassembler, respReassembler, frames[i], requestId, responseId,
                transfers, current, lastSeq, warnings);
    }
    assert frames[..|frames|] == frames;
    transfers, warnings := Close(transfers, current, lastSeq, warnings);
  }

  /** End of capture: a transfer still open is reported and emitted as it stands. */
  method Close(
    transfers: seq<LiveTransfer>, current: LiveTransfer?, ghost lastSeq: Option<Byte>, warnings: seq<Warning>)
    returns (transfers': seq<LiveTransfer>, warnings': seq<Warning>)
    ensures (Values(transfers'), warnings') == Finish(StateOf(transfers, current, lastSeq, warnings))
  {
    transfers', warnings' := transfers, warnings;
    if current != null {
      warnings' := warnings' + [Truncated(current.address, current.receivedSize, current.declaredSize)];
      ValuesSnoc(transfers, current);
      transfers' := transfers' + [current];
    }
  }
}

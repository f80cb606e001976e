/** Image to UDS messages to CAN frames, and back, through reassembly and extraction. */
module EndToEnd {
  import opened Basics
  import opened IsoTp
  import opened Segmentation
  import opened Transfers

  /**
   The tester's side of one programming session. In a download the image is the concatenation of
   the block bodies; in an upload the data is in the replies and the bodies are empty.
   */
  datatype Job = Job(
    upload: bool,
    format: Byte,
    addressWidth: nat,
    sizeWidth: nat,
    address: nat,
    size: nat,
    bulk: bool,
    firstCounter: Byte,
    blocks: seq<Bytes>,
    exitParameters: Bytes)
  {
    predicate Valid() {
      && 1 <= addressWidth <= 4 && 1 <= sizeWidth <= 4
      && address < Pow256(addressWidth) && size < Pow256(sizeWidth)
    }

    function Image(): Bytes {
      Flatten(blocks)
    }

    function BlockSid(): Byte {
      if bulk then SID_SUBARU_BULK_TRANSFER else SID_TRANSFER_DATA
    }

    function RequestSid(): Byte {
      if upload then SID_REQUEST_UPLOAD else SID_REQUEST_DOWNLOAD
    }

    function Alf(): Byte
      requires Valid()
    {
      16 * sizeWidth + addressWidth
    }

    /** `34 fmt alf [addr] [size]`. */
    function RequestApp(): Bytes
      requires Valid()
    {
      [RequestSid(), format, Alf()] + ToBigEndian(address, addressWidth) + ToBigEndian(size, sizeWidth)
    }
  }

  /** `36 counter body` for each body, the counter running on from `c`. */
  predicate AreBlocks(bm: seq<Message>, sid: Byte, c: Byte, bodies: seq<Bytes>) {
    if bodies == [] then bm == []
    else bm != [] && bm[0].app == [sid, c] + bodies[0] && AreBlocks(bm[1..], sid, Succ(c), bodies[1..])
  }

  predicate Performs(ms: seq<Message>, j: Job) {
    && j.Valid() && |ms| >= 2
    && ms[0].app == j.RequestApp()
    && AreBlocks(ms[1..|ms| - 1], j.BlockSid(), j.firstCounter, j.blocks)
    && ms[|ms| - 1].app == [SID_REQUEST_TRANSFER_EXIT] + j.exitParameters
  }

  predicate PerformAll(parts: seq<seq<Message>>, jobs: seq<Job>) {
    |parts| == |jobs| &&
    (jobs != [] ==> Performs(parts[0], jobs[0]) && PerformAll(parts[1..], jobs[1..]))
  }

  /** What the extractor must report for `j`. */
  function Report(ms: seq<Message>, j: Job): Transfer
    requires Performs(ms, j)
  {
    var n := |j.blocks|;
    Transfer(
      j.upload, j.address, j.size, |j.Image()|, j.format, j.Alf(),
      if n == 0 then SID_TRANSFER_DATA else j.BlockSid(), n,
      if n == 0 then 0 else (j.firstCounter + n - 1) / 256,
      j.Image(), ms[0].ms, ms[|ms| - 1].ms)
  }

  function Reports(parts: seq<seq<Message>>, jobs: seq<Job>): seq<Transfer>
    requires PerformAll(parts, jobs)
  {
    if jobs == [] then []
    else [Report(parts[0], jobs[0])] + Reports(parts[1..], jobs[1..])
  }

  // ------------------------------------------------------------------
  // One session
  // ------------------------------------------------------------------

  lemma DecodeParts(app: Bytes, sid: Byte, format: Byte, alf: Byte, a: Bytes, s: Bytes)
    requires app == [sid, format, alf] + a + s && IsRequestSid(sid)
    requires |a| == alf % 16 && |s| == alf / 16 && 1 <= |a| <= 4 && 1 <= |s| <= 4
    ensures DecodeRequest(app) == Some(Request(format, alf, FromBigEndian(a), FromBigEndian(s)))
  {
    assert app[0] == sid && app[1] == format && app[2] == alf;
    assert app[3..3 + |a|] == a;
    assert app[3 + |a|..3 + |a| + |s|] == s;
  }

  lemma RequestDecodes(j: Job)
    requires j.Valid()
    ensures DecodeRequest(j.RequestApp()) == Some(Request(j.format, j.Alf(), j.address, j.size))
  {
    var a, s := ToBigEndian(j.address, j.addressWidth), ToBigEndian(j.size, j.sizeWidth);
    DecodeParts(j.RequestApp(), j.RequestSid(), j.format, j.Alf(), a, s);
    BigEndianRoundTrip(j.address, j.addressWidth);
    BigEndianRoundTrip(j.size, j.sizeWidth);
  }

  /** Block messages followed by an exit are read back as exactly those blocks. */
  lemma {:induction false} BlocksReadBack(bm: seq<Message>, exit: Message, rest: seq<Message>,
                                          sid: Byte, c: Byte, bodies: seq<Bytes>)
    requires AreBlocks(bm, sid, c, bodies) && IsBlockSid(sid) && IsExit(exit)
    ensures forall b <- bm :: IsBlock(b)
    ensures OpenBlocks(bm + [exit] + rest) == bm
    ensures ExitTime(bm + [exit] + rest) == Some(exit.ms)
    ensures Sessions(bm + [exit] + rest) == Sessions(rest)
    decreases |bodies|
  {
    var all := bm + [exit] + rest;
    if bm == [] {
      assert all == [exit] + rest && all[1..] == rest;
    } else {
      BlocksReadBack(bm[1..], exit, rest, sid, Succ(c), bodies[1..]);
      assert all[1..] == bm[1..] + [exit] + rest && all[0] == bm[0];
      assert bm == [bm[0]] + bm[1..];
    }
  }

  lemma {:induction false} BlocksRegular(k: Kind, bm: seq<Message>, exit: Message, rest: seq<Message>,
                                         sid: Byte, c: Byte, bodies: seq<Bytes>)
    requires AreBlocks(bm, sid, c, bodies) && IsBlockSid(sid) && IsExit(exit)
    ensures Irregularities(k, bm + [exit] + rest) == Irregularities(k, rest)
    decreases |bodies|
  {
    var all := bm + [exit] + rest;
    if bm == [] {
      assert all == [exit] + rest && all[1..] == rest;
    } else {
      BlocksRegular(k, bm[1..], exit, rest, sid, Succ(c), bodies[1..]);
      assert all[1..] == bm[1..] + [exit] + rest && all[0] == bm[0];
    }
  }

  /** The blocks of a session carry its image and an unbroken counter, on one SID. */
  lemma {:induction false} BlocksContent(bm: seq<Block>, sid: Byte, c: Byte, bodies: seq<Bytes>, last: Option<Byte>)
    requires AreBlocks(bm, sid, c, bodies) && (last.Some? ==> c == Succ(last.value))
    ensures Bodies(bm) == Flatten(bodies) && |bm| == |bodies|
    ensures Gaps(last, Counters(bm)) == 0 && Mixed(Some(sid), bm) == 0
    decreases |bodies|
  {
    if bodies != [] {
      BlocksContent(bm[1..], sid, Succ(c), bodies[1..], Some(c));
      assert bm[0].app[2..] == bodies[0];
      assert Counters(bm) == [c] + Counters(bm[1..]);
    }
  }

  lemma HeadAndTail(ms: seq<Message>, rest: seq<Message>)
    requires |ms| >= 2
    ensures (ms + rest)[0] == ms[0]
    ensures (ms + rest)[1..] == ms[1..|ms| - 1] + [ms[|ms| - 1]] + rest
  {
    assert ms[1..] == ms[1..|ms| - 1] + [ms[|ms| - 1]];
    assert (ms + rest)[1..] == ms[1..] + rest;
  }

  /** The session a job leaves in the trace. */
  function Outcome(ms: seq<Message>): Session
    requires |ms| >= 2 && IsRequest(ms[0]) && forall b <- ms[1..|ms| - 1] :: IsBlock(b)
  {
    Session(ms[0], ms[1..|ms| - 1], Some(ms[|ms| - 1].ms))
  }

  /** The right request, the right blocks, the right exit. */
  lemma JobSession(ms: seq<Message>, j: Job, rest: seq<Message>)
    requires Performs(ms, j)
    ensures IsRequest(ms[0]) && forall b <- ms[1..|ms| - 1] :: IsBlock(b)
    ensures Sessions(ms + rest) == [Outcome(ms)] + Sessions(rest)
  {
    RequestDecodes(j);
    var bm, exit := ms[1..|ms| - 1], ms[|ms| - 1];
    BlocksReadBack(bm, exit, rest, j.BlockSid(), j.firstCounter, j.blocks);
    HeadAndTail(ms, rest);
  }

  lemma JobSummary(ms: seq<Message>, j: Job)
    requires Performs(ms, j) && IsRequest(ms[0]) && forall b <- ms[1..|ms| - 1] :: IsBlock(b)
    ensures Summary(Outcome(ms)) == Report(ms, j)
  {
    RequestDecodes(j);
    var bm: seq<Block> := ms[1..|ms| - 1];
    BlocksContent(bm, j.BlockSid(), j.firstCounter, j.blocks, None);
    if bm != [] {
      CountersLength(bm);
      WrapsFrom(j.firstCounter, Counters(bm)[1..]);
    }
  }

  lemma BlocksUniform(k: Kind, bm: seq<Block>, exitMs: int, j: Job)
    requires j.Valid() && AreBlocks(bm, j.BlockSid(), j.firstCounter, j.blocks)
    ensures Irregular(k, None, None, bm, Some(exitMs)) == 0
  {
    BlocksContent(bm, j.BlockSid(), j.firstCounter, j.blocks, None);
    if bm != [] {
      assert Mixed(None, bm) == Mixed(Some(j.BlockSid()), bm[1..]);
    }
  }

  lemma JobRegular(k: Kind, ms: seq<Message>, j: Job, rest: seq<Message>)
    requires Performs(ms, j)
    ensures Irregularities(k, ms + rest) == Irregularities(k, rest)
  {
    RequestDecodes(j);
    var bm, exit := ms[1..|ms| - 1], ms[|ms| - 1];
    var tail := bm + [exit] + rest;
    BlocksReadBack(bm, exit, rest, j.BlockSid(), j.firstCounter, j.blocks);
    BlocksRegular(k, bm, exit, rest, j.BlockSid(), j.firstCounter, j.blocks);
    BlocksUniform(k, bm, exit.ms, j);
    HeadAndTail(ms, rest);
    assert Irregularities(k, ms + rest) == Irregular(k, None, None, bm, Some(exit.ms)) + Irregularities(k, tail);
  }

  // ------------------------------------------------------------------
  // Any number of sessions
  // ------------------------------------------------------------------

  lemma SummariesCons(s: Session, ss: seq<Session>)
    ensures Summaries([s] + ss) == [Summary(s)] + Summaries(ss)
  {
    assert ([s] + ss)[1..] == ss;
  }

  lemma {:induction false} JobsReadBack(parts: seq<seq<Message>>, jobs: seq<Job>)
    requires PerformAll(parts, jobs)
    ensures Summaries(Sessions(Flatten(parts))) == Reports(parts, jobs)
    decreases |jobs|
  {
    hide Outcome, Summary, Report;
    if jobs != [] {
      JobsReadBack(parts[1..], jobs[1..]);
      JobSession(parts[0], jobs[0], Flatten(parts[1..]));
      JobSummary(parts[0], jobs[0]);
      SummariesCons(Outcome(parts[0]), Sessions(Flatten(parts[1..])));
    }
  }

  lemma {:induction false} JobsRegular(k: Kind, parts: seq<seq<Message>>, jobs: seq<Job>)
    requires PerformAll(parts, jobs)
    ensures Irregularities(k, Flatten(parts)) == 0
    decreases |jobs|
  {
    if jobs != [] {
      JobsRegular(k, parts[1..], jobs[1..]);
      JobRegular(k, parts[0], jobs[0], Flatten(parts[1..]));
    }
  }

  /**
   The end-to-end law. Take any jobs (image, block split, start counter, widths, service ID), put
   messages of other services between theirs, cut each message into ISO-TP frames in any legal
   way, and interleave the result with flow control and malformed frames on the same CAN ID and
   with any frames on others: extraction returns exactly those transfers, with no warning.
   */
  lemma RoundTrip(trace: seq<Frame>, requestId: int, frames: seq<seq<Frame>>, sent: seq<Message>,
                  parts: seq<seq<Message>>, jobs: seq<Job>)
    requires Carries(Heard(OfId(requestId, trace)), frames, sent)
    requires Telling(sent) == Flatten(parts) && PerformAll(parts, jobs)
    ensures Extract(Messages(None, OfId(requestId, trace))) == (Reports(parts, jobs), [])
  {
    hide Sessions;
    HeardSuffices(None, OfId(requestId, trace));
    MessagesRoundTrip(None, Heard(OfId(requestId, trace)), frames, sent);
    TellingSuffices(Start, sent);
    JobsReadBack(parts, jobs);
    Recovered(Flatten(parts));
    forall k: Kind
      ensures Irregularities(k, Flatten(parts)) == 0
    {
      JobsRegular(k, parts, jobs);
    }
    WarningsExact(Flatten(parts));
  }

  /** The same for a single session, spelled out. */
  lemma SingleImageRoundTrip(trace: seq<Frame>, requestId: int, frames: seq<seq<Frame>>, sent: seq<Message>,
                             ms: seq<Message>, j: Job, image: Bytes)
    requires Carries(Heard(OfId(requestId, trace)), frames, sent)
    requires Telling(sent) == ms && Performs(ms, j) && j.Image() == image
    ensures var (ts, ws) := Extract(Messages(None, OfId(requestId, trace)));
      && ws == [] && |ts| == 1
      && ts[0].upload == j.upload && ts[0].payload == image && ts[0].receivedSize == |image|
      && ts[0].address == j.address && ts[0].declaredSize == j.size
      && ts[0].blockCount == |j.blocks|
      && (j.blocks != [] ==> ts[0].blockSeqWraps == (j.firstCounter + |j.blocks| - 1) / 256)
  {
    assert Flatten([ms]) == ms;
    assert PerformAll([ms], [j]);
    RoundTrip(trace, requestId, frames, sent, [ms], [j]);
  }

  lemma {:induction false} FlattenNothing(parts: seq<Bytes>)
    requires forall i :: 0 <= i < |parts| ==> parts[i] == []
    ensures Flatten(parts) == []
  {
    if parts != [] {
      FlattenNothing(parts[1..]);
    }
  }

  /** A complete upload is reported with its address, declared size and block count, and no data. */
  lemma UploadReported(trace: seq<Frame>, requestId: int, frames: seq<seq<Frame>>, sent: seq<Message>,
                       ms: seq<Message>, j: Job)
    requires Carries(Heard(OfId(requestId, trace)), frames, sent)
    requires Telling(sent) == ms && Performs(ms, j)
    requires j.upload && forall i :: 0 <= i < |j.blocks| ==> j.blocks[i] == []
    ensures var (ts, ws) := Extract(Messages(None, OfId(requestId, trace)));
      && ws == [] && |ts| == 1
      && ts[0].upload && ts[0].payload == [] && ts[0].receivedSize == 0
      && ts[0].address == j.address && ts[0].declaredSize == j.size && ts[0].blockCount == |j.blocks|
  {
    FlattenNothing(j.blocks);
    SingleImageRoundTrip(trace, requestId, frames, sent, ms, j, []);
  }
}

/** Half-duplex polling down to the CAN frames of both sides. */
module PollTraffic {
  import opened Basics
  import opened IsoTp
  import opened PollCodec
  import opened Polls
  import opened PollExtraction
  import opened Segmentation
  import ReassemblySafety

  // ------------------------------------------------------------------
  // The ECU's side
  // ------------------------------------------------------------------

  function EcuSide(apps: seq<App>): seq<Message> {
    if apps == [] then []
    else
      var last := apps[|apps| - 1];
      EcuSide(apps[..|apps| - 1]) + if last.FromEcu? then [Message(last.ms, last.app)] else []
  }

  /** With two IDs, the ECU's messages are those of a reassembler fed the response ID alone. */
  lemma {:induction false} EcuMessages(frames: seq<Frame>, requestId: int, responseId: int)
    requires requestId != responseId
    ensures EcuSide(Apps(frames, requestId, responseId)) == Messages(None, OfId(responseId, frames))
  {
    hide Next;
    if frames != [] {
      var pre, f := frames[..|frames| - 1], frames[|frames| - 1];
      EcuMessages(pre, requestId, responseId);
      OneMore(pre, f, responseId);
      assert frames == pre + [f];
      var apps, more := Apps(pre, requestId, responseId), Completes(pre, f, requestId, responseId);
      if more != [] {
        assert (apps + more)[..|apps + more| - 1] == apps;
      } else {
        assert apps + more == apps;
      }
    }
  }

  // ------------------------------------------------------------------
  // Frames that are part of the conversation
  // ------------------------------------------------------------------

  predicate IsSpeech(f: Frame, requestId: int, responseId: int) {
    (f.id == requestId || f.id == responseId) && !Classify(f.data).Ignored?
  }

  /** The frames of the two IDs without flow control and malformed ones. */
  function Speech(frames: seq<Frame>, requestId: int, responseId: int): seq<Frame> {
    if frames == [] then []
    else
      var f := frames[|frames| - 1];
      Speech(frames[..|frames| - 1], requestId, responseId) + if IsSpeech(f, requestId, responseId) then [f] else []
  }

  lemma IgnoredFrame(p: Option<Pending>, d: Bytes)
    requires Classify(d).Ignored?
    ensures Next(p, d) == (p, None)
  {
  }

  /** Nothing else matters to the messages of the two sides. */
  lemma {:induction false} SpeechSuffices(frames: seq<Frame>, requestId: int, responseId: int)
    ensures var own := Speech(frames, requestId, responseId);
      && Apps(own, requestId, responseId) == Apps(frames, requestId, responseId)
      && Held(own, requestId) == Held(frames, requestId) && Held(own, responseId) == Held(frames, responseId)
  {
    hide Next, Held, Classify;
    if frames != [] {
      var pre, f := frames[..|frames| - 1], frames[|frames| - 1];
      SpeechSuffices(pre, requestId, responseId);
      var own := Speech(pre, requestId, responseId);
      assert frames == pre + [f];
      OneMore(pre, f, requestId);
      OneMore(pre, f, responseId);
      if IsSpeech(f, requestId, responseId) {
        OneMore(own, f, requestId);
        OneMore(own, f, responseId);
        assert (own + [f])[..|own|] == own;
      } else {
        assert own + [] == own;
        if f.id == requestId || f.id == responseId {
          IgnoredFrame(Held(pre, f.id), f.data);
        }
        assert Apps(pre, requestId, responseId) + [] == Apps(pre, requestId, responseId);
      }
    }
  }

  // ------------------------------------------------------------------
  // One message after the other
  // ------------------------------------------------------------------

  function Sender(a: App, requestId: int, responseId: int): int {
    if a.FromTester? then requestId else responseId
  }

  predicate AllFrom(fs: seq<Frame>, id: int) {
    forall i :: 0 <= i < |fs| ==> fs[i].id == id
  }

  /** `part` is `a` cut into frames of its sender, the last one at the time of `a`. */
  predicate Utters(part: seq<Frame>, a: App, requestId: int, responseId: int) {
    && IsSegmentation(part, a.app)
    && AllFrom(part, Sender(a, requestId, responseId))
    && a.ms == part[|part| - 1].ms
  }

  /** The frames are the messages `apps`, cut into frames one after the other. */
  predicate Conversation(fs: seq<Frame>, parts: seq<seq<Frame>>, apps: seq<App>, requestId: int, responseId: int) {
    && fs == Flatten(parts) && |parts| == |apps|
    && forall i :: 0 <= i < |apps| ==> Utters(parts[i], apps[i], requestId, responseId)
  }

  lemma {:induction false} AllOfId(fs: seq<Frame>, id: int)
    requires AllFrom(fs, id)
    ensures OfId(id, fs) == fs
  {
    if fs != [] {
      AllOfId(fs[1..], id);
    }
  }

  lemma HeldAfter(pre: seq<Frame>, fs: seq<Frame>, id: int)
    requires AllFrom(fs, id)
    ensures Held(pre + fs, id) == After(Held(pre, id), fs)
  {
    OfIdAppend(id, pre, fs);
    AllOfId(fs, id);
    AfterAppend(None, OfId(id, pre), fs);
  }

  /** The `k`-th frame of a part completes what the reassembler puts out on it. */
  lemma CompletesAt(pre: seq<Frame>, part: seq<Frame>, k: nat, id: int, requestId: int, responseId: int)
    requires AllFrom(part, id) && k < |part| && (id == requestId || id == responseId) && requestId != responseId
    ensures var out := Outputs(Held(pre, id), part)[k];
      Completes(pre + part[..k], part[k], requestId, responseId)
      == if out.None? then []
         else if id == requestId then [FromTester(part[k].ms, out.value)]
         else [FromEcu(part[k].ms, out.value)]
  {
    hide Held, Next;
    HeldAfter(pre, part[..k], id);
    ReassemblySafety.OutputAt(Held(pre, id), part, k);
  }

  lemma {:induction false} SilentPrefix(
    pre: seq<Frame>, part: seq<Frame>, k: nat, id: int, requestId: int, responseId: int)
    requires AllFrom(part, id) && k < |part| && (id == requestId || id == responseId) && requestId != responseId
    requires forall i :: 0 <= i < k ==> Outputs(Held(pre, id), part)[i].None?
    ensures Apps(pre + part[..k], requestId, responseId) == Apps(pre, requestId, responseId)
  {
    hide Held, Completes;
    if k == 0 {
      assert pre + part[..0] == pre;
    } else {
      SilentPrefix(pre, part, k - 1, id, requestId, responseId);
      CompletesAt(pre, part, k - 1, id, requestId, responseId);
      var fs := pre + part[..k];
      assert fs[..|fs| - 1] == pre + part[..k - 1] && fs[|fs| - 1] == part[k - 1];
      assert Apps(pre, requestId, responseId) + [] == Apps(pre, requestId, responseId);
    }
  }

  /** A message cut into frames arrives as that message. */
  lemma PartArrives(pre: seq<Frame>, part: seq<Frame>, a: App, requestId: int, responseId: int)
    requires Utters(part, a, requestId, responseId) && requestId != responseId
    ensures Apps(pre + part, requestId, responseId) == Apps(pre, requestId, responseId) + [a]
  {
    hide Held, Completes, IsSegmentation, Outputs, After;
    var id, last := Sender(a, requestId, responseId), |part| - 1;
    HasFrames(part, a.app);
    SegmentationRoundTrip(Held(pre, id), part, a.app);
    SilentPrefix(pre, part, last, id, requestId, responseId);
    CompletesAt(pre, part, last, id, requestId, responseId);
    var fs := pre + part;
    assert fs[..|fs| - 1] == pre + part[..last] && fs[|fs| - 1] == part[last];
  }

  lemma HasFrames(part: seq<Frame>, m: Bytes)
    requires IsSegmentation(part, m)
    ensures |part| >= 1
  {
  }

  lemma {:induction false} ConversationArrives(fs: seq<Frame>, parts: seq<seq<Frame>>, apps: seq<App>,
                                               requestId: int, responseId: int)
    requires Conversation(fs, parts, apps, requestId, responseId) && requestId != responseId
    ensures Apps(fs, requestId, responseId) == apps
    decreases |apps|
  {
    hide Utters;
    if apps != [] {
      var last := |apps| - 1;
      var front := parts[..last];
      assert parts == front + [parts[last]] && apps == apps[..last] + [apps[last]];
      FlattenAppend(front, [parts[last]]);
      assert Flatten([parts[last]]) == parts[last] + [] == parts[last];
      ConversationArrives(Flatten(front), front, apps[..last], requestId, responseId);
      PartArrives(Flatten(front), parts[last], apps[last], requestId, responseId);
    }
  }

  /**
   A half-duplex capture, frame by frame: messages of either side cut into ISO-TP frames in any
   legal way, one message at a time, with flow control, malformed frames and other IDs anywhere
   between, and messages of other services, malformed requests and response-pending replies among
   them. Every request is reported once, in order, with the value of its own reply.
   */
  lemma HalfDuplexFrames(frames: seq<Frame>, parts: seq<seq<Frame>>, apps: seq<App>, requestId: int, responseId: int,
                         xs: seq<Exchange>, last: seq<App>)
    requires requestId != responseId
    requires Conversation(Speech(frames, requestId, responseId), parts, apps, requestId, responseId)
    requires Signal(apps) == Trace(xs) + last && (forall x <- xs :: x.Valid()) && Unanswered(last)
    ensures Run(Start, Apps(frames, requestId, responseId))
         == State(Requests(last), Outcomes(xs), [], MalformedTimes(apps))
    ensures Completed(Run(Start, Apps(frames, requestId, responseId))) == Outcomes(xs) + Requests(last)
  {
    SpeechSuffices(frames, requestId, responseId);
    ConversationArrives(Speech(frames, requestId, responseId), parts, apps, requestId, responseId);
    HalfDuplex(apps, xs, last);
  }

  /** A last question the capture has no answer to. */
  datatype Ending = Silence | Asking(question: Question, ms: int) {
    predicate Valid() {
      Asking? ==> question.Valid()
    }

    function Said(): seq<App>
      requires Valid()
    {
      if Asking? then [FromTester(ms, question.Written())] else []
    }

    function Reported(): seq<Poll> {
      if Asking? then [Poll(question.Asks().0, question.Asks().1, ms, -1, None)] else []
    }
  }

  lemma EndingAsked(last: Ending)
    requires last.Valid()
    ensures Unanswered(last.Said()) && Requests(last.Said()) == last.Reported()
  {
    if last.Asking? {
      QuestionAsked(last.question, last.ms);
      hide Asked;
      var a := FromTester(last.ms, last.question.Written());
      assert last.Said() == [a] && [a][1..] == [];
    }
  }

  /**
   The same law from the bytes up: reads of any address and size, in any widths, and of any
   identifier, are reported with exactly that address, size and value.
   */
  lemma WrittenPolls(frames: seq<Frame>, parts: seq<seq<Frame>>, apps: seq<App>, requestId: int, responseId: int,
                     talks: seq<Talk>, last: Ending)
    requires requestId != responseId && last.Valid() && forall t <- talks :: t.Valid()
    requires Conversation(Speech(frames, requestId, responseId), parts, apps, requestId, responseId)
    requires Signal(apps) == Trace(AllSaid(talks)) + last.Said()
    ensures Completed(Run(Start, Apps(frames, requestId, responseId))) == AllReported(talks) + last.Reported()
  {
    hide Conversation, Speech, Signal;
    TalksReported(talks);
    EndingAsked(last);
    HalfDuplexFrames(frames, parts, apps, requestId, responseId, AllSaid(talks), last.Said());
  }
}

/** ISO 15765-2 reassembly as the sniffer does it. */
module IsoTp {
  // `Next` is the reference: what one frame does to the message in flight on one CAN ID.
  // `Reassembler.Feed` is the stateful form, with one mutable entry per CAN ID.

  import opened Basics

  /** One sniffed frame; `ms` is the capture time. */
  datatype Frame = Frame(ms: int, id: int, data: Bytes)

  /** Application bytes together with the time of the frame that completed them. */
  datatype Message = Message(ms: int, app: Bytes)

  /** A message in flight: its declared length, the bytes so far, the next sequence nibble. */
  datatype Pending = Pending(expected: nat, payload: Bytes, nextSeq: nat)

  /** What a frame says, before any state is consulted. */
  datatype Pdu =
    | Single(body: Bytes)
    | First(total: nat, chunk: Bytes)
    | Consecutive(sn: nat, body: Bytes)
    | Ignored

  const CF_BYTES := 7

  /** PCI nibble and the nibble beside it. */
  function High(b: Byte): nat { b / 16 }

  function Low(b: Byte): nat { b % 16 }

  /** The 12-bit length of a standard First Frame; 0 announces the 32-bit escape form. */
  function ShortLength(d: Bytes): nat
    requires |d| >= 2
  {
    Low(d[0]) * 256 + d[1]
  }

  function Classify(d: Bytes): Pdu {
    if d == [] then Ignored
    else match High(d[0])
      case 0 =>
        var n := Low(d[0]);
        if n == 0 || 1 + n > |d| then Ignored else Single(d[1..1 + n])
      case 1 =>
        if |d| < 2 then Ignored
        else if ShortLength(d) > 0 then First(ShortLength(d), Clip(d[2..], ShortLength(d)))
        else if |d| < 6 || FromBigEndian(d[2..6]) == 0 then Ignored
        else First(FromBigEndian(d[2..6]), Clip(d[6..], FromBigEndian(d[2..6])))
      case 2 => Consecutive(Low(d[0]), Clip(d[1..], CF_BYTES))
      case _ => Ignored
  }

  function Clip(s: Bytes, n: nat): Bytes {
    s[..Min(n, |s|)]
  }

  lemma ClipClip(s: Bytes, a: nat, b: nat)
    ensures Clip(Clip(s, a), b) == Clip(s, Min(a, b))
  {
  }

  /** The entry left in flight and the message emitted when frame `d` arrives. */
  function Next(p: Option<Pending>, d: Bytes): (Option<Pending>, Option<Bytes>) {
    Receive(p, Classify(d))
  }

  function Receive(p: Option<Pending>, pdu: Pdu): (Option<Pending>, Option<Bytes>) {
    match pdu
    case Ignored => (p, None)
    case Single(body) => (None, Some(body))
    case First(total, chunk) => Settle(Pending(total, chunk, 1))
    case Consecutive(sn, body) =>
      if p.None? || sn != p.value.nextSeq then (None, None)
      else
        var room := Max(0, p.value.expected - |p.value.payload|);
        Settle(Pending(p.value.expected, p.value.payload + Clip(body, room), (p.value.nextSeq + 1) % 16))
  }

  /** A message that has all its bytes leaves the table; any other stays. */
  function Settle(p: Pending): (Option<Pending>, Option<Bytes>) {
    if |p.payload| >= p.expected then (None, Some(p.payload[..p.expected])) else (Some(p), None)
  }

  // ------------------------------------------------------------------
  // Safety of the table
  // ------------------------------------------------------------------

  /** What every entry of the table satisfies between frames. */
  predicate InFlight(p: Pending) {
    |p.payload| < p.expected && p.nextSeq < 16
  }

  predicate Sound(p: Option<Pending>) {
    p.Some? ==> InFlight(p.value)
  }

  /** `strip_iso_tp_sf`: the single-frame-only reader. A zero length is allowed here. */
  function StripSingle(d: Bytes): (r: Option<Bytes>)
    ensures r.Some? && r.value != [] ==> Classify(d) == Single(r.value)
    ensures Classify(d).Single? ==> r == Some(Classify(d).body)
    ensures r == Some([]) <==> d != [] && d[0] == 0
  {
    if |d| < 1 || High(d[0]) != 0 || 1 + Low(d[0]) > |d| then None
    else Some(d[1..1 + Low(d[0])])
  }

  /** A length byte, `app` itself, and padding. */
  predicate Padded(d: Bytes, app: Bytes, pad: Bytes) {
    |app| < 16 && d == [|app| as Byte] + app + pad
  }

  /** The reader gives `app` exactly for a length byte, `app` itself, and any padding. */
  lemma StripExact(d: Bytes, app: Bytes)
    ensures StripSingle(d) == Some(app) <==> exists pad :: Padded(d, app, pad)
  {
    if StripSingle(d) == Some(app) {
      assert Padded(d, app, d[1 + |app|..]);
    }
    forall pad | Padded(d, app, pad)
      ensures StripSingle(d) == Some(app)
    {
      assert d[0] == |app| && d[1..1 + |app|] == app;
    }
  }

  /**
   The frames that change nothing, byte for byte: empty ones, PCI 3 (flow control) and above, a
   Single Frame that is empty or cut short, a First Frame with no length byte, and an escape form
   that is cut short or announces no bytes.
   */
  lemma DisregardedExact(d: Bytes)
    ensures Classify(d).Ignored? <==>
      || d == [] || d[0] >= 0x30 || d[0] == 0
      || (d[0] < 0x10 && |d| <= d[0])
      || (0x10 <= d[0] < 0x20 && |d| < 2)
      || (d[0] == 0x10 && d[1] == 0 && (|d| < 6 || d[2..6] == [0, 0, 0, 0]))
    ensures Classify(d).Ignored? ==> forall p :: Next(p, d) == (p, None)
  {
    if |d| >= 6 {
      ZeroExact(d[2..6]);
    }
  }

  lemma ZeroExact(s: Bytes)
    requires |s| == 4
    ensures FromBigEndian(s) == 0 <==> s == [0, 0, 0, 0]
  {
    var a, b, c := s[..3], s[..3][..2], s[..3][..2][..1];
    assert FromBigEndian(s) == FromBigEndian(a) * 256 + s[3];
    assert FromBigEndian(a) == FromBigEndian(b) * 256 + s[2];
    assert FromBigEndian(b) == FromBigEndian(c) * 256 + s[1];
    assert c[..0] == [] && FromBigEndian(c) == s[0];
  }

  /** What `Classify` guarantees of a decoded frame. */
  predicate WellFormed(pdu: Pdu) {
    match pdu
    case Ignored => true
    case Single(body) => body != []
    case First(total, chunk) => total > 0 && |chunk| <= total
    case Consecutive(sn, body) => sn < 16 && |body| <= CF_BYTES
  }

  lemma ClassifyWellFormed(d: Bytes)
    ensures WellFormed(Classify(d))
  {
  }

  // ------------------------------------------------------------------
  // Runs
  // ------------------------------------------------------------------

  /** The entry left after feeding `fs`, frames of one CAN ID. */
  function After(p: Option<Pending>, fs: seq<Frame>): Option<Pending>
    decreases |fs|
  {
    if fs == [] then p else After(Next(p, fs[0].data).0, fs[1..])
  }

  /** What `feed` returns on each of `fs`. */
  function Outputs(p: Option<Pending>, fs: seq<Frame>): (r: seq<Option<Bytes>>)
    ensures |r| == |fs|
    decreases |fs|
  {
    if fs == [] then [] else [Next(p, fs[0].data).1] + Outputs(Next(p, fs[0].data).0, fs[1..])
  }

  /** The messages emitted, with the time of the frame that completed each. */
  function Messages(p: Option<Pending>, fs: seq<Frame>): seq<Message>
    decreases |fs|
  {
    if fs == [] then []
    else
      var (p', out) := Next(p, fs[0].data);
      if out.Some? then [Message(fs[0].ms, out.value)] + Messages(p', fs[1..]) else Messages(p', fs[1..])
  }

  /** The frames that mean anything: flow control and malformed frames are left out. */
  function Heard(fs: seq<Frame>): seq<Frame> {
    if fs == [] then []
    else if Classify(fs[0].data).Ignored? then Heard(fs[1..])
    else [fs[0]] + Heard(fs[1..])
  }

  lemma {:induction false} HeardSuffices(p: Option<Pending>, fs: seq<Frame>)
    ensures Messages(p, Heard(fs)) == Messages(p, fs)
    ensures After(p, Heard(fs)) == After(p, fs)
    decreases |fs|
  {
    hide Classify;
    if fs != [] {
      HeardSuffices(Next(p, fs[0].data).0, fs[1..]);
      assert Heard(fs) != Heard(fs[1..]) ==> Heard(fs)[1..] == Heard(fs[1..]);
    }
  }

  function OfId(id: int, trace: seq<Frame>): seq<Frame> {
    if trace == [] then []
    else if trace[0].id == id then [trace[0]] + OfId(id, trace[1..])
    else OfId(id, trace[1..])
  }

  lemma {:induction false} AfterAppend(p: Option<Pending>, a: seq<Frame>, b: seq<Frame>)
    ensures After(p, a + b) == After(After(p, a), b)
    decreases |a|
  {
    hide Next;
    if a == [] {
      assert a + b == b;
    } else {
      AfterAppend(Next(p, a[0].data).0, a[1..], b);
      assert (a + b)[1..] == a[1..] + b;
    }
  }

  lemma {:induction false} OutputsAppend(p: Option<Pending>, a: seq<Frame>, b: seq<Frame>)
    ensures Outputs(p, a + b) == Outputs(p, a) + Outputs(After(p, a), b)
    decreases |a|
  {
    hide Next;
    if a == [] {
      assert a + b == b;
    } else {
      OutputsAppend(Next(p, a[0].data).0, a[1..], b);
      assert (a + b)[0] == a[0] && (a + b)[1..] == a[1..] + b;
    }
  }

  lemma {:induction false} MessagesAppend(p: Option<Pending>, a: seq<Frame>, b: seq<Frame>)
    ensures Messages(p, a + b) == Messages(p, a) + Messages(After(p, a), b)
    decreases |a|
  {
    hide Next;
    if a == [] {
      assert a + b == b;
    } else {
      MessagesAppend(Next(p, a[0].data).0, a[1..], b);
      assert (a + b)[1..] == a[1..] + b;
    }
  }

  lemma {:induction false} OfIdAppend(id: int, a: seq<Frame>, b: seq<Frame>)
    ensures OfId(id, a + b) == OfId(id, a) + OfId(id, b)
  {
    if a == [] {
      assert a + b == b;
    } else {
      OfIdAppend(id, a[1..], b);
      assert (a + b)[1..] == a[1..] + b;
    }
  }
}

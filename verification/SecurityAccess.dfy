/** Extraction of SecurityAccess seed/key pairs. */
module SecurityAccess {
  // A frame is first decoded to an `Event`; `React` is the four-event machine over events.
  // `Completes` says, without the machine, when an exchange is complete, and `WindowExact`
  // proves that the machine emits exactly the complete ones.

  import opened Basics
  import opened IsoTp

  const SID_SECURITY_ACCESS: Byte := 0x27
  const SA_RESPONSE_SID: Byte := 0x67
  const NEGATIVE_RESPONSE: Byte := 0x7F

  datatype SaPair = SaPair(seed: Bytes, key: Bytes, requestMs: int, seedMs: int, sendKeyMs: int, ackMs: int, level: int)

  datatype Event =
    | SeedRequest(level: int, ms: int)
    | SeedReply(level: int, seed: Bytes, ms: int)
    | SendKey(level: int, key: Bytes, ms: int)
    | KeyAck(level: int, ms: int)
    | Refusal
    | Other

  predicate IsSeedSub(sub: Byte) { sub == 1 || sub == 3 || sub == 5 }

  predicate IsKeySub(sub: Byte) { sub == 2 || sub == 4 || sub == 6 }

  /** The event a frame stands for; levels are numbered by their request sub-function. */
  function Decode(f: Frame, requestId: int, responseId: int): Event {
    var app := StripSingle(f.data);
    if f.id != requestId && f.id != responseId then Other
    else if app.None? || |app.value| < 2 then Other
    else
      var sid, sub, body := app.value[0], app.value[1], app.value[2..];
      if f.id == requestId && sid == SID_SECURITY_ACCESS && IsSeedSub(sub) then SeedRequest(sub, f.ms)
      else if f.id == responseId && sid == SA_RESPONSE_SID && IsSeedSub(sub) then SeedReply(sub, body, f.ms)
      else if f.id == requestId && sid == SID_SECURITY_ACCESS && IsKeySub(sub) then SendKey(sub - 1, body, f.ms)
      else if f.id == responseId && sid == SA_RESPONSE_SID && IsKeySub(sub) then KeyAck(sub - 1, f.ms)
      else if f.id == responseId && sid == NEGATIVE_RESPONSE && sub == SID_SECURITY_ACCESS then Refusal
      else Other
  }

  /** The message of an event other than `Other`, with anything after what the event records. */
  predicate Tells(e: Event, app: Bytes, more: Bytes) {
    match e
    case SeedRequest(l, _) => l in {1, 3, 5} && app == [0x27, l as Byte] + more
    case SeedReply(l, seed, _) => l in {1, 3, 5} && app == [0x67, l as Byte] + seed
    case SendKey(l, key, _) => l in {1, 3, 5} && app == [0x27, (l + 1) as Byte] + key
    case KeyAck(l, _) => l in {1, 3, 5} && app == [0x67, (l + 1) as Byte] + more
    case Refusal => app == [0x7F, 0x27] + more
    case Other => false
  }

  /** The sender's ID and the time of the frame. */
  predicate Fits(e: Event, f: Frame, requestId: int, responseId: int) {
    match e
    case SeedRequest(_, ms) => f.id == requestId && f.ms == ms
    case SendKey(_, _, ms) => f.id == requestId && f.ms == ms
    case SeedReply(_, _, ms) => f.id == responseId && f.ms == ms
    case KeyAck(_, ms) => f.id == responseId && f.ms == ms
    case Refusal => f.id == responseId
    case Other => false
  }

  /** A frame is an event exactly when it is a Single Frame of that event's bytes, from its sender. */
  lemma EventExact(e: Event, f: Frame, requestId: int, responseId: int)
    requires e != Other
    ensures Decode(f, requestId, responseId) == e <==>
      Fits(e, f, requestId, responseId) &&
      exists app, more, pad :: Padded(f.data, app, pad) && Tells(e, app, more)
  {
    var s := StripSingle(f.data);
    if Decode(f, requestId, responseId) == e {
      var app := s.value;
      StripExact(f.data, app);
      assert app == [app[0], app[1]] + app[2..];
      assert Tells(e, app, app[2..]);
    }
    if Fits(e, f, requestId, responseId) {
      forall app, more, pad | Padded(f.data, app, pad) && Tells(e, app, more)
        ensures Decode(f, requestId, responseId) == e
      {
        StripExact(f.data, app);
        TellsBytes(e, app, more);
      }
    }
  }

  lemma TellsBytes(e: Event, app: Bytes, more: Bytes)
    requires Tells(e, app, more)
    ensures |app| >= 2
    ensures app[2..] == if e.SeedReply? then e.seed else if e.SendKey? then e.key else more
  {
  }

  // ------------------------------------------------------------------
  // The machine
  // ------------------------------------------------------------------

  /** Bytes and the time they were seen. */
  datatype Seen = Seen(bytes: Bytes, ms: int)

  /** A key is held only with a seed, a seed only with a request, all at one level. */
  datatype Phase =
    | Idle
    | Asked(level: int, ms: int)
    | Seeded(level: int, ms: int, seed: Seen)
    | Keyed(level: int, ms: int, seed: Seen, key: Seen)

  function React(p: Phase, e: Event): Phase {
    match e
    case SeedRequest(l, ms) => Asked(l, ms)
    case SeedReply(l, seed, ms) =>
      if p.Idle? || p.level != l then p
      else if seed == [] then Idle
      else if p.Keyed? then p.(seed := Seen(seed, ms))
      else Seeded(p.level, p.ms, Seen(seed, ms))
    case SendKey(l, key, ms) =>
      if p.Idle? || p.Asked? || p.level != l then p
      else if key == [] then Idle
      else Keyed(p.level, p.ms, p.seed, Seen(key, ms))
    case KeyAck(l, ms) => if p.Keyed? && p.level == l then Idle else p
    case Refusal => Idle
    case Other => p
  }

  function Emit(p: Phase, e: Event): seq<SaPair> {
    if e.KeyAck? && p.Keyed? && p.level == e.level then
      [SaPair(p.seed.bytes, p.key.bytes, p.ms, p.seed.ms, p.key.ms, e.ms, p.level)]
    else []
  }

  function PhaseAfter(p: Phase, es: seq<Event>): Phase
    decreases |es|
  {
    if es == [] then p else PhaseAfter(React(p, es[0]), es[1..])
  }

  function Pairs(p: Phase, es: seq<Event>): seq<SaPair>
    decreases |es|
  {
    if es == [] then [] else Emit(p, es[0]) + Pairs(React(p, es[0]), es[1..])
  }

  function Events(frames: seq<Frame>, requestId: int, responseId: int): (es: seq<Event>)
    ensures |es| == |frames|
  {
    seq(|frames|, i requires 0 <= i < |frames| => Decode(frames[i], requestId, responseId))
  }

  lemma {:induction false} PhaseAppend(p: Phase, a: seq<Event>, b: seq<Event>)
    ensures PhaseAfter(p, a + b) == PhaseAfter(PhaseAfter(p, a), b)
    decreases |a|
  {
    if a == [] {
      assert a + b == b;
    } else {
      PhaseAppend(React(p, a[0]), a[1..], b);
      assert (a + b)[1..] == a[1..] + b;
    }
  }

  lemma {:induction false} PairsAppend(p: Phase, a: seq<Event>, b: seq<Event>)
    ensures Pairs(p, a + b) == Pairs(p, a) + Pairs(PhaseAfter(p, a), b)
    decreases |a|
  {
    if a == [] {
      assert a + b == b;
    } else {
      var p' := React(p, a[0]);
      PairsAppend(p', a[1..], b);
      assert (a + b)[1..] == a[1..] + b && (a + b)[0] == a[0];
      Assoc(Emit(p, a[0]), Pairs(p', a[1..]), Pairs(PhaseAfter(p', a[1..]), b));
    }
  }

  lemma Snoc(p: Phase, es: seq<Event>, e: Event)
    ensures PhaseAfter(p, es + [e]) == React(PhaseAfter(p, es), e)
    ensures Pairs(p, es + [e]) == Pairs(p, es) + Emit(PhaseAfter(p, es), e)
  {
    PhaseAppend(p, es, [e]);
    PairsAppend(p, es, [e]);
    var q := PhaseAfter(p, es);
    assert [e][1..] == [];
    assert Pairs(q, [e]) == Emit(q, e);
  }

  // ------------------------------------------------------------------
  // The eight variables of the loop
  // ------------------------------------------------------------------

  /** The `pending_*` variables of the loop and its local `reset`. */
  class Collector {
    var level: Option<int>
    var reqSub: Option<Byte>
    var keySub: Option<Byte>
    var seedReqMs: Option<int>
    var seed: Option<Bytes>
    var seedMs: Option<int>
    var sendKeyMs: Option<int>
    var key: Option<Bytes>

    constructor ()
      ensures Encodes(Idle)
    {
      level, reqSub, keySub, seedReqMs := None, None, None, None;
      seed, seedMs, sendKeyMs, key := None, None, None, None;
    }

    /** What the variables hold in phase `p`. */
    ghost predicate Encodes(p: Phase)
      reads this
    {
      && Asks(p) && (seed.Some? <==> seedMs.Some?) && (key.Some? <==> sendKeyMs.Some?)
      && (seed.Some? <==> p.Seeded? || p.Keyed?) && (key.Some? <==> p.Keyed?)
      && (seed.Some? ==> Seen(seed.value, seedMs.value) == p.seed)
      && (key.Some? ==> Seen(key.value, sendKeyMs.value) == p.key)
    }

    ghost predicate Asks(p: Phase)
      reads this
    {
      if p.Idle? then level.None? && reqSub.None? && keySub.None? && seedReqMs.None?
      else
        && level == Some(p.level) && seedReqMs == Some(p.ms)
        && reqSub.Some? && reqSub.value == p.level && IsSeedSub(reqSub.value)
        && keySub.Some? && keySub.value == p.level + 1
    }

    method Reset()
      modifies this
      ensures Encodes(Idle)
    {
      level, reqSub, keySub, seedReqMs := None, None, None, None;
      seed, seedMs, sendKeyMs, key := None, None, None, None;
    }

    method OnSeedRequest(sub: Byte, ms: int)
      requires IsSeedSub(sub)
      modifies this
      ensures Encodes(Asked(sub, ms))
    {
      Reset();
      level, reqSub, keySub, seedReqMs := Some(sub), Some(sub), Some(sub + 1), Some(ms);
    }

    method OnSeed(body: Bytes, ms: int, ghost p: Phase)
      requires Encodes(p) && !p.Idle?
      modifies this
      ensures Encodes(React(p, SeedReply(p.level, body, ms)))
    {
      if |body| < 1 {
        Reset();
      } else {
        seed, seedMs := Some(body), Some(ms);
      }
    }

    method OnKey(body: Bytes, ms: int, ghost p: Phase)
      requires Encodes(p) && (p.Seeded? || p.Keyed?)
      modifies this
      ensures Encodes(React(p, SendKey(p.level, body, ms)))
    {
      if |body| < 1 {
        Reset();
      } else {
        key, sendKeyMs := Some(body), Some(ms);
      }
    }

    /** One frame of the loop; `p` is the phase before it. */
    method OnFrame(f: Frame, requestId: int, responseId: int, ghost p: Phase) returns (pairs: seq<SaPair>)
      requires Encodes(p)
      modifies this
      ensures Encodes(React(p, Decode(f, requestId, responseId)))
      ensures pairs == Emit(p, Decode(f, requestId, responseId))
    {
      pairs := [];
      if f.id != requestId && f.id != responseId {
        return;
      }
      var app := StripSingle(f.data);
      if app.None? || |app.value| < 2 {
        return;
      }
      var sid, sub, body := app.value[0], app.value[1], app.value[2..];
      if f.id == requestId && sid == SID_SECURITY_ACCESS && IsSeedSub(sub) {
        OnSeedRequest(sub, f.ms);
      } else if f.id == responseId && sid == SA_RESPONSE_SID && reqSub == Some(sub) && seedReqMs.Some? {
        OnSeed(body, f.ms, p);
      } else if f.id == requestId && sid == SID_SECURITY_ACCESS && keySub == Some(sub) && seed.Some? {
        OnKey(body, f.ms, p);
      } else if f.id == responseId && sid == SA_RESPONSE_SID && keySub == Some(sub) && key.Some? && seed.Some?
                && seedMs.Some? && seedReqMs.Some? && sendKeyMs.Some? && level.Some? {
        pairs := [SaPair(seed.value, key.value, seedReqMs.value, seedMs.value, sendKeyMs.value, f.ms, level.value)];
        Reset();
      } else if f.id == responseId && sid == NEGATIVE_RESPONSE && sub == SID_SECURITY_ACCESS {
        Reset();
      }
    }
  }

  /** The frame loop. */
  method ExtractPairs(frames: seq<Frame>, requestId: int, responseId: int) returns (pairs: seq<SaPair>)
    ensures pairs == Pairs(Idle, Events(frames, requestId, responseId))
  {
    pairs := [];
    var pending := new Collector();
    ghost var es, p := Events(frames, requestId, responseId), Idle;
    for i := 0 to |frames|
      invariant p == PhaseAfter(Idle, es[..i]) && pairs == Pairs(Idle, es[..i])
      invariant fresh(pending) && pending.Encodes(p)
    {
      assert es[..i + 1] == es[..i] + [es[i]];
      Snoc(Idle, es[..i], es[i]);
      var out := pending.OnFrame(frames[i], requestId, responseId, p);
      pairs := pairs + out;
      p := React(p, es[i]);
    }
    assert es[..|frames|] == es;
  }

  // ------------------------------------------------------------------
  // What a window after a seed request amounts to
  // ------------------------------------------------------------------

  predicate IsSeed(e: Event, l: int) {
    e.SeedReply? && e.level == l && e.seed != []
  }

  predicate IsKey(e: Event, l: int) {
    e.SendKey? && e.level == l && e.key != []
  }

  /** Position of the last seed before `n`; -1 if there is none. */
  function LastSeed(w: seq<Event>, l: int, n: nat): (i: int)
    requires n <= |w|
    ensures -1 <= i < n && (i >= 0 ==> IsSeed(w[i], l))
  {
    if n == 0 then -1 else if IsSeed(w[n - 1], l) then n - 1 else LastSeed(w, l, n - 1)
  }

  /** Position of the last key before `n` that some seed precedes; -1 if there is none. */
  function LastKey(w: seq<Event>, l: int, n: nat): (j: int)
    requires n <= |w|
    ensures -1 <= j < n && (j >= 0 ==> IsKey(w[j], l) && LastSeed(w, l, j) >= 0)
  {
    if n == 0 then -1
    else if IsKey(w[n - 1], l) && LastSeed(w, l, n - 1) >= 0 then n - 1
    else LastKey(w, l, n - 1)
  }

  /** Nothing later qualifies: these are the last such positions. */
  lemma {:induction false} LastAreLast(w: seq<Event>, l: int, n: nat, k: nat)
    requires k < n <= |w|
    ensures IsSeed(w[k], l) ==> k <= LastSeed(w, l, n)
    ensures IsKey(w[k], l) && LastSeed(w, l, k) >= 0 ==> k <= LastKey(w, l, n)
  {
    if k < n - 1 {
      LastAreLast(w, l, n - 1, k);
    }
  }

  /** An event that abandons the exchange: a refusal, an empty seed, an empty key after a seed. */
  predicate Spoils(w: seq<Event>, l: int, k: int) {
    0 <= k < |w| &&
    (|| w[k].Refusal?
     || (w[k].SeedReply? && w[k].level == l && w[k].seed == [])
     || (w[k].SendKey? && w[k].level == l && w[k].key == [] && LastSeed(w, l, k) >= 0))
  }

  /** The acknowledgement at `a` follows a key that follows a seed, and nothing spoiled the exchange. */
  ghost predicate Completes(w: seq<Event>, l: int, a: int) {
    && 0 <= a < |w| && w[a].KeyAck? && w[a].level == l
    && LastKey(w, l, a) >= 0
    && forall k :: 0 <= k < a ==> !Spoils(w, l, k)
  }

  /** The first acknowledgement that completes the exchange. */
  ghost predicate FirstCompletes(w: seq<Event>, l: int, a: int) {
    Completes(w, l, a) && forall k :: 0 <= k < a ==> !Completes(w, l, k)
  }

  /** The pair an exchange carries: the last seed and the last key before its acknowledgement. */
  function PairAt(w: seq<Event>, l: int, ms: int, a: nat): SaPair
    requires a < |w| && w[a].KeyAck? && LastKey(w, l, a) >= 0
  {
    var j := LastKey(w, l, a);
    SeedStays(w, l, j, a);
    var i := LastSeed(w, l, a);
    SaPair(w[i].seed, w[j].key, ms, w[i].ms, w[j].ms, w[a].ms, l)
  }

  lemma {:induction false} SeedStays(w: seq<Event>, l: int, m: nat, n: nat)
    requires m <= n <= |w|
    ensures LastSeed(w, l, m) <= LastSeed(w, l, n)
    decreases n
  {
    if m < n {
      SeedStays(w, l, m, n - 1);
    }
  }

  /** The phase after the first `n` events of a window, while the exchange is neither spoiled nor complete. */
  function Expected(w: seq<Event>, l: int, ms: int, n: nat): Phase
    requires n <= |w|
  {
    var i, j := LastSeed(w, l, n), LastKey(w, l, n);
    if i < 0 then Asked(l, ms)
    else if j < 0 then Seeded(l, ms, Seen(w[i].seed, w[i].ms))
    else Keyed(l, ms, Seen(w[i].seed, w[i].ms), Seen(w[j].key, w[j].ms))
  }

  /** The first `n` events neither spoil nor complete the exchange. */
  ghost predicate Open(w: seq<Event>, l: int, n: nat) {
    forall k :: 0 <= k < n ==> !Spoils(w, l, k) && !Completes(w, l, k)
  }

  predicate NoRequests(w: seq<Event>) {
    forall k :: 0 <= k < |w| ==> !w[k].SeedRequest?
  }

  lemma {:induction false} OpenPhase(w: seq<Event>, l: int, ms: int, n: nat)
    requires NoRequests(w) && n <= |w| && Open(w, l, n)
    ensures PhaseAfter(Asked(l, ms), w[..n]) == Expected(w, l, ms, n)
    ensures Pairs(Asked(l, ms), w[..n]) == []
  {
    if n == 0 {
      assert w[..0] == [];
    } else {
      OpenPhase(w, l, ms, n - 1);
      OpenStep(w, l, ms, n - 1);
      Snoc(Asked(l, ms), w[..n - 1], w[n - 1]);
      assert w[..n] == w[..n - 1] + [w[n - 1]];
    }
  }

  lemma OpenStep(w: seq<Event>, l: int, ms: int, n: nat)
    requires NoRequests(w) && n < |w| && Open(w, l, n + 1)
    ensures React(Expected(w, l, ms, n), w[n]) == Expected(w, l, ms, n + 1)
    ensures Emit(Expected(w, l, ms, n), w[n]) == []
  {
    assert !Spoils(w, l, n) && !Completes(w, l, n);
    if LastKey(w, l, n) >= 0 {
      SeedStays(w, l, LastKey(w, l, n), n);
    }
    match w[n]
    case SeedReply(_, _, _) =>
    case SendKey(_, _, _) =>
    case KeyAck(_, _) =>
    case _ =>
  }

  /** Once idle, a window without a new request stays idle and emits nothing. */
  lemma {:induction false} IdleStays(w: seq<Event>)
    requires NoRequests(w)
    ensures PhaseAfter(Idle, w) == Idle && Pairs(Idle, w) == []
  {
    if w != [] {
      assert !w[0].SeedRequest?;
      IdleStays(w[1..]);
    }
  }

  /** The first event that ends the exchange, or the end of the window. */
  lemma FirstEnd(w: seq<Event>, l: int, m: nat) returns (n: nat)
    requires m <= |w| && Open(w, l, m)
    ensures n <= |w| && Open(w, l, n)
    ensures n < |w| ==> Spoils(w, l, n) || Completes(w, l, n)
    decreases |w| - m
  {
    n := m;
    if m < |w| && !Spoils(w, l, m) && !Completes(w, l, m) {
      n := FirstEnd(w, l, m + 1);
    }
  }

  /** What a window gives, by the event `n` that ends the exchange. */
  lemma WindowPairs(w: seq<Event>, l: int, ms: int) returns (n: nat)
    requires NoRequests(w)
    ensures n <= |w| && Open(w, l, n) && (n < |w| ==> Spoils(w, l, n) || Completes(w, l, n))
    ensures Pairs(Asked(l, ms), w) == if n < |w| && Completes(w, l, n) then [PairAt(w, l, ms, n)] else []
  {
    hide React, Emit, Expected, PairAt, Spoils, Completes;
    n := FirstEnd(w, l, 0);
    OpenPhase(w, l, ms, n);
    if n == |w| {
      assert w[..n] == w;
    } else {
      var tail := w[n + 1..];
      assert w == w[..n] + [w[n]] + tail;
      Snoc(Asked(l, ms), w[..n], w[n]);
      EndingStep(w, l, ms, n);
      IdleStays(tail);
      PairsAppend(Asked(l, ms), w[..n] + [w[n]], tail);
    }
  }

  /** An event that spoils the exchange is no acknowledgement, and nothing completes after it. */
  lemma SpoiledForGood(w: seq<Event>, l: int, n: nat, a: int)
    requires n < |w| && Spoils(w, l, n) && n <= a
    ensures !Completes(w, l, a)
  {
  }

  /**
   A window after a seed request at level `l` yields a pair exactly when some acknowledgement
   completes the exchange; it is then one pair, that of the first such acknowledgement.
   */
  lemma WindowExact(w: seq<Event>, l: int, ms: int)
    requires NoRequests(w)
    ensures (exists a :: Completes(w, l, a)) ==>
      exists a :: FirstCompletes(w, l, a) && Pairs(Asked(l, ms), w) == [PairAt(w, l, ms, a)]
    ensures !(exists a :: Completes(w, l, a)) ==> Pairs(Asked(l, ms), w) == []
  {
    hide PairAt, Pairs, Spoils, NoRequests;
    var n := WindowPairs(w, l, ms);
    if n < |w| && Completes(w, l, n) {
      assert FirstCompletes(w, l, n);
    } else {
      forall a
        ensures !Completes(w, l, a)
      {
        if n < |w| && n <= a {
          SpoiledForGood(w, l, n, a);
        }
      }
    }
  }

  lemma EndingStep(w: seq<Event>, l: int, ms: int, n: nat)
    requires n < |w| && Open(w, l, n) && (Spoils(w, l, n) || Completes(w, l, n))
    ensures React(Expected(w, l, ms, n), w[n]) == Idle
    ensures Emit(Expected(w, l, ms, n), w[n]) == if Completes(w, l, n) then [PairAt(w, l, ms, n)] else []
  {
    if LastKey(w, l, n) >= 0 {
      SeedStays(w, l, LastKey(w, l, n), n);
    }
  }

  // ------------------------------------------------------------------
  // Whole traces
  // ------------------------------------------------------------------

  /** A seed request and everything up to the next one. */
  datatype Window = Window(level: int, ms: int, events: seq<Event>)

  function Until(es: seq<Event>): (w: seq<Event>)
    ensures NoRequests(w) && w <= es
  {
    if es == [] || es[0].SeedRequest? then [] else [es[0]] + Until(es[1..])
  }

  function Windows(es: seq<Event>): seq<Window> {
    if es == [] then []
    else if es[0].SeedRequest? then [Window(es[0].level, es[0].ms, Until(es[1..]))] + Windows(es[1..])
    else Windows(es[1..])
  }

  function SeedRequests(es: seq<Event>): nat {
    if es == [] then 0 else (if es[0].SeedRequest? then 1 else 0) + SeedRequests(es[1..])
  }

  /** The pair a window carries, if its exchange completes. */
  ghost function Outcome(win: Window): seq<SaPair> {
    if exists a :: FirstCompletes(win.events, win.level, a) then
      var a :| FirstCompletes(win.events, win.level, a);
      [PairAt(win.events, win.level, win.ms, a)]
    else []
  }

  ghost function Outcomes(ws: seq<Window>): seq<SaPair> {
    if ws == [] then [] else Outcome(ws[0]) + Outcomes(ws[1..])
  }

  lemma OutcomeExact(win: Window)
    requires NoRequests(win.events)
    ensures Pairs(Asked(win.level, win.ms), win.events) == Outcome(win)
    ensures |Outcome(win)| <= 1
  {
    WindowExact(win.events, win.level, win.ms);
    if a :| FirstCompletes(win.events, win.level, a) {
      assert Completes(win.events, win.level, a);
      forall b | FirstCompletes(win.events, win.level, b)
        ensures a == b
      {
        assert Completes(win.events, win.level, b);
      }
    }
  }

  lemma SplitAtRequest(p: Phase, e: Event, rest: seq<Event>)
    requires e.SeedRequest?
    requires Pairs(React(p, e), rest) == Pairs(React(p, e), Until(rest)) + Outcomes(Windows(rest))
    ensures Pairs(p, [e] + rest) == Pairs(p, Until([e] + rest)) + Outcomes(Windows([e] + rest))
  {
    var win := Window(e.level, e.ms, Until(rest));
    OutcomeExact(win);
    OutcomesCons(win, Windows(rest));
    assert ([e] + rest)[1..] == rest;
    assert Windows([e] + rest) == [win] + Windows(rest);
  }

  lemma SplitElsewhere(p: Phase, e: Event, rest: seq<Event>)
    requires !e.SeedRequest?
    requires Pairs(React(p, e), rest) == Pairs(React(p, e), Until(rest)) + Outcomes(Windows(rest))
    ensures Pairs(p, [e] + rest) == Pairs(p, Until([e] + rest)) + Outcomes(Windows([e] + rest))
  {
    UntilCons(p, e, rest);
    assert ([e] + rest)[1..] == rest;
    assert Until([e] + rest) == [e] + Until(rest) && Windows([e] + rest) == Windows(rest);
    Assoc(Emit(p, e), Pairs(React(p, e), Until(rest)), Outcomes(Windows(rest)));
  }

  lemma {:induction false} TraceSplits(p: Phase, es: seq<Event>)
    ensures Pairs(p, es) == Pairs(p, Until(es)) + Outcomes(Windows(es))
    decreases |es|
  {
    if es != [] {
      TraceSplits(React(p, es[0]), es[1..]);
      if es[0].SeedRequest? {
        SplitAtRequest(p, es[0], es[1..]);
      } else {
        SplitElsewhere(p, es[0], es[1..]);
      }
      assert es == [es[0]] + es[1..];
    }
  }

  lemma OutcomesCons(win: Window, ws: seq<Window>)
    ensures Outcomes([win] + ws) == Outcome(win) + Outcomes(ws)
  {
    assert ([win] + ws)[1..] == ws;
  }

  lemma UntilCons(p: Phase, e: Event, rest: seq<Event>)
    ensures Pairs(p, [e] + Until(rest)) == Emit(p, e) + Pairs(React(p, e), Until(rest))
  {
    assert ([e] + Until(rest))[1..] == Until(rest);
  }

  /**
   The pairs of a whole trace are, in order, those of the windows whose exchange completes;
   there are at most as many as seed requests.
   */
  lemma TraceExact(es: seq<Event>)
    ensures Pairs(Idle, es) == Outcomes(Windows(es))
    ensures |Pairs(Idle, es)| <= SeedRequests(es)
  {
    TraceSplits(Idle, es);
    IdleStays(Until(es));
    OutcomesBounded(es);
  }

  lemma {:induction false} OutcomesBounded(es: seq<Event>)
    ensures |Outcomes(Windows(es))| <= SeedRequests(es)
  {
    if es != [] {
      OutcomesBounded(es[1..]);
      if es[0].SeedRequest? {
        var win := Window(es[0].level, es[0].ms, Until(es[1..]));
        OutcomeExact(win);
        OutcomesCons(win, Windows(es[1..]));
      }
    }
  }

  /** The trace without the frames that are no SecurityAccess event at all. */
  function Relevant(es: seq<Event>): seq<Event> {
    if es == [] then []
    else if es[0].Other? then Relevant(es[1..])
    else [es[0]] + Relevant(es[1..])
  }

  /** Deleting unrelated frames changes nothing. */
  lemma {:induction false} IrrelevantFrames(p: Phase, es: seq<Event>)
    ensures Pairs(p, Relevant(es)) == Pairs(p, es)
    decreases |es|
  {
    if es != [] {
      IrrelevantFrames(React(p, es[0]), es[1..]);
      if !es[0].Other? {
        assert ([es[0]] + Relevant(es[1..]))[1..] == Relevant(es[1..]);
      }
    }
  }

  /** The four events of one exchange. */
  predicate IsExchange(es: seq<Event>, pair: SaPair) {
    && pair.seed != [] && pair.key != []
    && es == [SeedRequest(pair.level, pair.requestMs), SeedReply(pair.level, pair.seed, pair.seedMs),
              SendKey(pair.level, pair.key, pair.sendKeyMs), KeyAck(pair.level, pair.ackMs)]
  }

  predicate AreExchanges(parts: seq<seq<Event>>, pairs: seq<SaPair>) {
    |parts| == |pairs| && (parts != [] ==> IsExchange(parts[0], pairs[0]) && AreExchanges(parts[1..], pairs[1..]))
  }

  lemma ExchangeYieldsPair(p: Phase, es: seq<Event>, pair: SaPair, rest: seq<Event>)
    requires IsExchange(es, pair)
    ensures Pairs(p, es + rest) == [pair] + Pairs(Idle, rest)
  {
    var all := es + rest;
    var l, seed, key := pair.level, Seen(pair.seed, pair.seedMs), Seen(pair.key, pair.sendKeyMs);
    var s1, s2, s3 := all[1..], all[2..], all[3..];
    assert s1[1..] == s2 && s2[1..] == s3 && s3[1..] == rest;
    assert Pairs(p, all) == Pairs(Asked(l, pair.requestMs), s1);
    assert Pairs(Asked(l, pair.requestMs), s1) == Pairs(Seeded(l, pair.requestMs, seed), s2);
    assert Pairs(Seeded(l, pair.requestMs, seed), s2) == Pairs(Keyed(l, pair.requestMs, seed, key), s3);
  }

  /** Complete exchanges, among any unrelated frames, are recovered one by one and in order. */
  lemma ExchangesRecovered(es: seq<Event>, parts: seq<seq<Event>>, pairs: seq<SaPair>)
    requires Relevant(es) == Flatten(parts) && AreExchanges(parts, pairs)
    ensures Pairs(Idle, es) == pairs
  {
    IrrelevantFrames(Idle, es);
    ExchangeRuns(parts, pairs);
  }

  lemma {:induction false} ExchangeRuns(parts: seq<seq<Event>>, pairs: seq<SaPair>)
    requires AreExchanges(parts, pairs)
    ensures Pairs(Idle, Flatten(parts)) == pairs
  {
    if parts != [] {
      ExchangeRuns(parts[1..], pairs[1..]);
      ExchangeYieldsPair(Idle, parts[0], pairs[0], Flatten(parts[1..]));
    }
  }

  // ------------------------------------------------------------------
  // Which seed a key answers
  // ------------------------------------------------------------------

  /** No further seed arrived once the last key had been sent. */
  ghost predicate NoReseed(w: seq<Event>, l: int, a: nat)
    requires a <= |w|
  {
    forall k :: LastKey(w, l, a) <= k < a && k >= 0 ==> !IsSeed(w[k], l)
  }

  /**
   The pair joins a key with the seed it was sent for exactly when no seed reply came between
   the key and the acknowledgement.
   */
  lemma KeyAnswersSeed(w: seq<Event>, l: int, a: nat)
    requires Completes(w, l, a)
    ensures LastSeed(w, l, a) == LastSeed(w, l, LastKey(w, l, a)) <==> NoReseed(w, l, a)
  {
    var j := LastKey(w, l, a);
    SeedStays(w, l, j, a);
    forall k | j <= k < a && IsSeed(w[k], l)
      ensures LastSeed(w, l, a) != LastSeed(w, l, j)
    {
      LastAreLast(w, l, a, k);
    }
    if NoReseed(w, l, a) && LastSeed(w, l, a) != LastSeed(w, l, j) {
      assert LastSeed(w, l, a) < j;
      LastAreLast(w, l, j, LastSeed(w, l, a));
    }
  }

  /** A late second seed is paired with the key that answered the first. */
  lemma StaleKey()
    ensures Pairs(Idle, [SeedRequest(1, 0), SeedReply(1, [1], 1), SendKey(1, [9], 2),
                         SeedReply(1, [2], 3), KeyAck(1, 4)])
      == [SaPair([2], [9], 0, 3, 2, 4, 1)]
  {
    var c, d, e := SendKey(1, [9], 2), SeedReply(1, [2], 3), KeyAck(1, 4);
    assert Pairs(Seeded(1, 0, Seen([1], 1)), [c, d, e]) == Pairs(Keyed(1, 0, Seen([1], 1), Seen([9], 2)), [d, e]);
  }
}

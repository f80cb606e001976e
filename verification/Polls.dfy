/** RAM-poll extraction: pairing of read requests with replies. */
module Polls {
  // `inFlight` is Python's insertion-ordered dict: the polls in key order, one per key, where
  // storing over an existing key keeps that key's place.

  import opened Basics
  import opened IsoTp

  const SID_RDBI: Byte := 0x22
  const SID_RMBA: Byte := 0x23
  const NEGATIVE_RESPONSE: Byte := 0x7F
  const RESPONSE_PENDING: Byte := 0x78

  datatype Kind = Rdbi | Rmba

  datatype Key = Key(kind: Kind, address: nat)

  /** A poll; `responseMs` is -1 and `value` absent until a positive reply is paired with it. */
  datatype Poll = Poll(key: Key, sizeHint: int, requestMs: int, responseMs: int, value: Option<Bytes>)

  function Request(key: Key, sizeHint: int, ms: int): Poll {
    Poll(key, sizeHint, ms, -1, None)
  }

  /** `_decode_rmba_request`: address and size. */
  function DecodeRmba(app: Bytes): Option<(nat, nat)> {
    if |app| < 2 || app[0] != SID_RMBA then None
    else
      var aw, sw := app[1] % 16, app[1] / 16;
      if aw == 0 || aw > 4 || sw == 0 || sw > 4 || |app| < 2 + aw + sw then None
      else Some((FromBigEndian(app[2..2 + aw]), FromBigEndian(app[2 + aw..2 + aw + sw])))
  }

  /** `_decode_rdbi_request`: the single data identifier. */
  function DecodeRdbi(app: Bytes): Option<nat> {
    if |app| < 3 || app[0] != SID_RDBI then None else Some(Word(app))
  }

  function Word(app: Bytes): nat
    requires |app| >= 3
  {
    FromBigEndian(app[1..3])
  }

  /** A reassembled message and who sent it. */
  datatype App =
    | FromTester(ms: int, app: Bytes)
    | FromEcu(ms: int, app: Bytes)

  /** The poll a tester message asks for, if it decodes. */
  function Asked(a: App): Option<Poll> {
    if a.FromEcu? || a.app == [] then None
    else if a.app[0] == SID_RMBA then
      var d := DecodeRmba(a.app);
      if d.None? then None else Some(Request(Key(Rmba, d.value.0), d.value.1, a.ms))
    else if a.app[0] == SID_RDBI then
      var d := DecodeRdbi(a.app);
      if d.None? then None else Some(Request(Key(Rdbi, d.value), -1, a.ms))
    else None
  }

  predicate IsMalformed(a: App) {
    a.FromTester? && a.app != [] && (a.app[0] == SID_RMBA || a.app[0] == SID_RDBI) && Asked(a).None?
  }

  // ------------------------------------------------------------------
  // The in-flight dict
  // ------------------------------------------------------------------

  /** Position of `key`, or the length if it is absent. */
  function Find(s: seq<Poll>, key: Key): (i: nat)
    ensures i <= |s| && (i < |s| ==> s[i].key == key)
    ensures forall k :: 0 <= k < i ==> s[k].key != key
  {
    if s == [] then 0
    else if s[0].key == key then 0
    else 1 + Find(s[1..], key)
  }

  function FindKind(s: seq<Poll>, kind: Kind): (i: nat)
    ensures i <= |s| && (i < |s| ==> s[i].key.kind == kind)
    ensures forall k :: 0 <= k < i ==> s[k].key.kind != kind
  {
    if s == [] then 0
    else if s[0].key.kind == kind then 0
    else 1 + FindKind(s[1..], kind)
  }

  function Store(s: seq<Poll>, p: Poll): seq<Poll> {
    var i := Find(s, p.key);
    if i < |s| then s[i := p] else s + [p]
  }

  function Remove<T>(s: seq<T>, i: nat): seq<T>
    requires i < |s|
  {
    s[..i] + s[i + 1..]
  }

  function OfKind(s: seq<Poll>, kind: Kind): seq<Poll> {
    if s == [] then []
    else if s[0].key.kind == kind then [s[0]] + OfKind(s[1..], kind)
    else OfKind(s[1..], kind)
  }

  function Other(kind: Kind): Kind {
    if kind == Rmba then Rdbi else Rmba
  }

  // ------------------------------------------------------------------
  // One message
  // ------------------------------------------------------------------

  /** `lost` collects the in-flight polls a re-poll overwrote; the tool itself forgets them. */
  datatype State = State(inFlight: seq<Poll>, completed: seq<Poll>, lost: seq<Poll>, malformed: seq<int>)

  const Start := State([], [], [], [])

  function Answered(p: Poll, ms: int, value: Bytes): Poll {
    p.(responseMs := ms, value := Some(value))
  }

  function OnAsk(st: State, p: Poll): State {
    var i := Find(st.inFlight, p.key);
    st.(inFlight := Store(st.inFlight, p),
        lost := if i < |st.inFlight| then st.lost + [st.inFlight[i]] else st.lost)
  }

  /** Complete the poll at `i` with a value. */
  function Pair(st: State, i: nat, ms: int, value: Bytes): State
    requires i < |st.inFlight|
  {
    st.(inFlight := Remove(st.inFlight, i), completed := st.completed + [Answered(st.inFlight[i], ms, value)])
  }

  /** A rejection completes, unanswered, every poll of the rejected service. */
  function Reject(st: State, kind: Kind): State {
    st.(inFlight := OfKind(st.inFlight, Other(kind)), completed := st.completed + OfKind(st.inFlight, kind))
  }

  function OnReply(st: State, ms: int, app: Bytes): State {
    if app == [] then st
    else if app[0] == NEGATIVE_RESPONSE && |app| >= 3 then
      if app[2] == RESPONSE_PENDING then st
      else if app[1] == SID_RMBA then Reject(st, Rmba)
      else if app[1] == SID_RDBI then Reject(st, Rdbi)
      else st
    else if app[0] == 0x63 then
      var i := FindKind(st.inFlight, Rmba);
      if i < |st.inFlight| then Pair(st, i, ms, app[1..]) else st
    else if app[0] == 0x62 && |app| >= 3 then
      var i := Find(st.inFlight, Key(Rdbi, Word(app)));
      if i < |st.inFlight| then Pair(st, i, ms, app[3..]) else st
    else st
  }

  function OnApp(st: State, a: App): State {
    if a.FromEcu? then OnReply(st, a.ms, a.app)
    else if Asked(a).Some? then OnAsk(st, Asked(a).value)
    else if IsMalformed(a) then st.(malformed := st.malformed + [a.ms])
    else st
  }

  function Run(st: State, apps: seq<App>): State
    decreases |apps|
  {
    if apps == [] then st else Run(OnApp(st, apps[0]), apps[1..])
  }

  /** End of capture: whatever is still in flight is emitted unanswered. */
  function Completed(st: State): seq<Poll> {
    st.completed + st.inFlight
  }

  lemma {:induction false} RunAppend(st: State, a: seq<App>, b: seq<App>)
    ensures Run(st, a + b) == Run(Run(st, a), b)
    decreases |a|
  {
    if a == [] {
      assert a + b == b;
    } else {
      RunAppend(OnApp(st, a[0]), a[1..], b);
      assert (a + b)[1..] == a[1..] + b;
    }
  }

  // ------------------------------------------------------------------
  // Conservation of requests
  // ------------------------------------------------------------------

  /** The request a poll came from, whatever became of it. */
  function Stub(p: Poll): Poll {
    Request(p.key, p.sizeHint, p.requestMs)
  }

  /** How many of `s` came from the request `x`; with `None`, how many there are at all. */
  function Count(x: Option<Poll>, s: seq<Poll>): nat {
    if s == [] then 0 else (if Matches(x, s[0]) then 1 else 0) + Count(x, s[1..])
  }

  predicate Matches(x: Option<Poll>, p: Poll) {
    x.None? || x.value == Stub(p)
  }

  /** Every decoded request of a trace. */
  function Requests(apps: seq<App>): seq<Poll> {
    if apps == [] then []
    else if Asked(apps[0]).Some? then [Asked(apps[0]).value] + Requests(apps[1..])
    else Requests(apps[1..])
  }

  function Accounted(x: Option<Poll>, st: State): nat {
    Count(x, st.inFlight) + Count(x, st.completed) + Count(x, st.lost)
  }

  lemma {:induction false} CountAppend(x: Option<Poll>, a: seq<Poll>, b: seq<Poll>)
    ensures Count(x, a + b) == Count(x, a) + Count(x, b)
  {
    if a == [] {
      assert a + b == b;
    } else {
      CountAppend(x, a[1..], b);
      assert (a + b)[1..] == a[1..] + b;
    }
  }

  lemma CountSnoc(x: Option<Poll>, s: seq<Poll>, p: Poll)
    ensures Count(x, s + [p]) == Count(x, s) + if Matches(x, p) then 1 else 0
  {
    CountAppend(x, s, [p]);
    assert [p][1..] == [];
  }

  lemma {:induction false} CountRemove(x: Option<Poll>, s: seq<Poll>, i: nat)
    requires i < |s|
    ensures Count(x, s) == Count(x, Remove(s, i)) + if Matches(x, s[i]) then 1 else 0
  {
    if i == 0 {
      assert Remove(s, 0) == s[1..];
    } else {
      CountRemove(x, s[1..], i - 1);
      assert Remove(s, i) == [s[0]] + Remove(s[1..], i - 1);
    }
  }

  lemma CountReplace(x: Option<Poll>, s: seq<Poll>, i: nat, p: Poll)
    requires i < |s|
    ensures Count(x, s[i := p]) + (if Matches(x, s[i]) then 1 else 0) == Count(x, s) + if Matches(x, p) then 1 else 0
  {
    CountRemove(x, s, i);
    CountRemove(x, s[i := p], i);
    assert Remove(s[i := p], i) == Remove(s, i);
  }

  lemma {:induction false} CountByKind(x: Option<Poll>, s: seq<Poll>, kind: Kind)
    ensures Count(x, s) == Count(x, OfKind(s, kind)) + Count(x, OfKind(s, Other(kind)))
  {
    if s != [] {
      CountByKind(x, s[1..], kind);
      var k := s[0].key.kind;
      assert OfKind(s, k) == [s[0]] + OfKind(s[1..], k) && OfKind(s, k)[1..] == OfKind(s[1..], k);
    }
  }

  lemma AskAccounted(x: Option<Poll>, st: State, p: Poll)
    ensures Accounted(x, OnAsk(st, p)) == Accounted(x, st) + if Matches(x, p) then 1 else 0
  {
    var i := Find(st.inFlight, p.key);
    if i < |st.inFlight| {
      CountReplace(x, st.inFlight, i, p);
      CountSnoc(x, st.lost, st.inFlight[i]);
    } else {
      CountSnoc(x, st.inFlight, p);
    }
  }

  lemma PairAccounted(x: Option<Poll>, st: State, i: nat, ms: int, value: Bytes)
    requires i < |st.inFlight|
    ensures Accounted(x, Pair(st, i, ms, value)) == Accounted(x, st)
  {
    CountRemove(x, st.inFlight, i);
    CountSnoc(x, st.completed, Answered(st.inFlight[i], ms, value));
  }

  lemma RejectAccounted(x: Option<Poll>, st: State, kind: Kind)
    ensures Accounted(x, Reject(st, kind)) == Accounted(x, st)
  {
    CountByKind(x, st.inFlight, kind);
    CountAppend(x, st.completed, OfKind(st.inFlight, kind));
  }

  lemma ReplyAccounted(x: Option<Poll>, st: State, ms: int, app: Bytes)
    ensures Accounted(x, OnReply(st, ms, app)) == Accounted(x, st)
  {
    if app != [] {
      if app[0] == NEGATIVE_RESPONSE && |app| >= 3 {
        RejectAccounted(x, st, Rmba);
        RejectAccounted(x, st, Rdbi);
      } else if app[0] == 0x63 && FindKind(st.inFlight, Rmba) < |st.inFlight| {
        PairAccounted(x, st, FindKind(st.inFlight, Rmba), ms, app[1..]);
      } else if app[0] == 0x62 && |app| >= 3 && Find(st.inFlight, Key(Rdbi, Word(app))) < |st.inFlight| {
        PairAccounted(x, st, Find(st.inFlight, Key(Rdbi, Word(app))), ms, app[3..]);
      }
    }
  }

  lemma {:induction false} RunAccounted(x: Option<Poll>, st: State, apps: seq<App>)
    ensures Accounted(x, Run(st, apps)) == Accounted(x, st) + Count(x, Requests(apps))
    decreases |apps|
  {
    if apps != [] {
      var a := apps[0];
      RunAccounted(x, OnApp(st, a), apps[1..]);
      if a.FromEcu? {
        ReplyAccounted(x, st, a.ms, a.app);
      } else if Asked(a).Some? {
        AskAccounted(x, st, Asked(a).value);
        CountAppend(x, [Asked(a).value], Requests(apps[1..]));
        CountSnoc(x, [], Asked(a).value);
        assert [] + [Asked(a).value] == [Asked(a).value];
      }
    }
  }

  lemma {:induction false} CountAll(s: seq<Poll>)
    ensures Count(None, s) == |s|
  {
    if s != [] {
      CountAll(s[1..]);
    }
  }

  /**
   Conservation on every trace: the decoded requests are exactly the polls reported plus the
   in-flight polls that a re-poll of the same key overwrote, request by request and in number.
   */
  lemma RequestsConserved(apps: seq<App>)
    ensures var st := Run(Start, apps);
      && (forall x :: Count(x, Requests(apps)) == Count(x, Completed(st)) + Count(x, st.lost))
      && |Requests(apps)| == |Completed(st)| + |st.lost|
  {
    var st := Run(Start, apps);
    forall x
      ensures Count(x, Requests(apps)) == Count(x, Completed(st)) + Count(x, st.lost)
    {
      RunAccounted(x, Start, apps);
      CountAppend(x, st.completed, st.inFlight);
    }
    CountAll(Requests(apps));
    CountAll(Completed(st));
    CountAll(st.lost);
  }

  // ------------------------------------------------------------------
  // Messages that settle nothing
  // ------------------------------------------------------------------

  /** A reply that can complete a poll: a value, or a final rejection of one of the two services. */
  predicate IsFinal(app: Bytes) {
    if app == [] then false
    else if app[0] == NEGATIVE_RESPONSE then
      |app| >= 3 && app[2] != RESPONSE_PENDING && (app[1] == SID_RMBA || app[1] == SID_RDBI)
    else app[0] == 0x63 || (app[0] == 0x62 && |app| >= 3)
  }

  /** Other services, malformed requests, `7F xx 78` and rejections of other services. */
  predicate IsNoise(a: App) {
    if a.FromTester? then Asked(a).None? else !IsFinal(a.app)
  }

  /** The messages that matter to the in-flight polls. */
  function Signal(apps: seq<App>): seq<App> {
    if apps == [] then []
    else if IsNoise(apps[0]) then Signal(apps[1..])
    else [apps[0]] + Signal(apps[1..])
  }

  /** When malformed requests were seen. */
  function MalformedTimes(apps: seq<App>): seq<int> {
    if apps == [] then []
    else if IsMalformed(apps[0]) then [apps[0].ms] + MalformedTimes(apps[1..])
    else MalformedTimes(apps[1..])
  }

  function Core(st: State): State {
    st.(malformed := [])
  }

  lemma CoreStep(st: State, a: App)
    ensures Core(OnApp(st, a)) == if IsNoise(a) then Core(st) else OnApp(Core(st), a)
    ensures OnApp(st, a).malformed == st.malformed + if IsMalformed(a) then [a.ms] else []
  {
    assert st.malformed + [] == st.malformed;
  }

  /** Noise changes nothing but the list of malformed requests, which is exactly theirs. */
  lemma {:induction false} NoiseIgnored(st: State, apps: seq<App>)
    ensures Core(Run(st, apps)) == Run(Core(st), Signal(apps))
    ensures Run(st, apps).malformed == st.malformed + MalformedTimes(apps)
    decreases |apps|
  {
    hide OnApp, IsNoise, IsMalformed;
    if apps == [] {
      assert st.malformed + [] == st.malformed;
    } else {
      CoreStep(st, apps[0]);
      NoiseIgnored(OnApp(st, apps[0]), apps[1..]);
      var more := if IsMalformed(apps[0]) then [apps[0].ms] else [];
      Assoc(st.malformed, more, MalformedTimes(apps[1..]));
      assert !IsNoise(apps[0]) ==> Signal(apps)[1..] == Signal(apps[1..]);
    }
  }

  // ------------------------------------------------------------------
  // Half-duplex traces
  // ------------------------------------------------------------------

  /** A request and its final reply. */
  datatype Exchange = Exchange(ask: App, reply: App) {
    predicate Valid() {
      && Asked(ask).Some?
      && reply.FromEcu? && Answers(Asked(ask).value, reply.app)
    }

    /** The poll this exchange must be reported as. */
    function Outcome(): Poll
      requires Valid()
    {
      var p := Asked(ask).value;
      if reply.app[0] == NEGATIVE_RESPONSE then p
      else if p.key.kind == Rmba then Answered(p, reply.ms, reply.app[1..])
      else Answered(p, reply.ms, reply.app[3..])
    }
  }

  function Service(kind: Kind): Byte {
    if kind == Rmba then SID_RMBA else SID_RDBI
  }

  /** The final reply to `p`: its value, or a rejection of its service. */
  predicate Answers(p: Poll, app: Bytes) {
    if app == [] then false
    else if app[0] == NEGATIVE_RESPONSE then |app| >= 3 && app[1] == Service(p.key.kind) && app[2] != RESPONSE_PENDING
    else if p.key.kind == Rmba then app[0] == 0x63
    else |app| >= 3 && app[0] == 0x62 && Word(app) == p.key.address
  }

  function Trace(xs: seq<Exchange>): seq<App> {
    if xs == [] then [] else [xs[0].ask, xs[0].reply] + Trace(xs[1..])
  }

  function Outcomes(xs: seq<Exchange>): seq<Poll>
    requires forall x <- xs :: x.Valid()
  {
    if xs == [] then [] else [xs[0].Outcome()] + Outcomes(xs[1..])
  }

  /** A last request the capture has no reply to. */
  predicate Unanswered(last: seq<App>) {
    |last| <= 1 && forall a <- last :: Asked(a).Some?
  }

  lemma ReplySettles(st: State, p: Poll, ms: int, app: Bytes)
    requires st.inFlight == [p] && Answers(p, app)
    ensures var q := if app[0] == NEGATIVE_RESPONSE then p
                     else Answered(p, ms, if p.key.kind == Rmba then app[1..] else app[3..]);
      OnReply(st, ms, app) == st.(inFlight := [], completed := st.completed + [q])
  {
    assert Remove([p], 0) == [] && [p][1..] == [];
    assert OfKind([p], p.key.kind) == [p] && OfKind([p], Other(p.key.kind)) == [];
    assert Key(Rdbi, p.key.address) == p.key || p.key.kind == Rmba;
  }

  lemma ExchangeSettles(st: State, x: Exchange)
    requires st.inFlight == [] && x.Valid()
    ensures OnApp(OnApp(st, x.ask), x.reply) == st.(completed := st.completed + [x.Outcome()])
  {
    var p := Asked(x.ask).value;
    assert OnApp(st, x.ask) == st.(inFlight := [p]) by {
      assert [] + [p] == [p];
    }
    ReplySettles(st.(inFlight := [p]), p, x.reply.ms, x.reply.app);
  }

  lemma RunTwo(st: State, a: App, b: App, rest: seq<App>)
    ensures Run(st, [a, b] + rest) == Run(OnApp(OnApp(st, a), b), rest)
  {
    hide OnApp;
    assert ([a, b] + rest)[1..] == [b] + rest && ([b] + rest)[1..] == rest;
  }

  lemma {:induction false} ExchangesSettle(st: State, xs: seq<Exchange>, last: seq<App>)
    requires st.inFlight == [] && (forall x <- xs :: x.Valid()) && Unanswered(last)
    ensures Run(st, Trace(xs) + last)
         == st.(inFlight := Requests(last), completed := st.completed + Outcomes(xs))
    decreases |xs|
  {
    hide OnApp;
    if xs == [] {
      assert [] + last == last && st.completed + [] == st.completed;
      LastStays(st, last);
    } else {
      ExchangeSettles(st, xs[0]);
      var st' := st.(completed := st.completed + [xs[0].Outcome()]);
      Assoc([xs[0].ask, xs[0].reply], Trace(xs[1..]), last);
      RunTwo(st, xs[0].ask, xs[0].reply, Trace(xs[1..]) + last);
      ExchangesSettle(st', xs[1..], last);
      Assoc(st.completed, [xs[0].Outcome()], Outcomes(xs[1..]));
    }
  }

  lemma LastStays(st: State, last: seq<App>)
    requires st.inFlight == [] && Unanswered(last)
    ensures Run(st, last) == st.(inFlight := Requests(last))
  {
    if last != [] {
      var a := last[0];
      assert a in last && last == [a] && last[1..] == [];
      assert [] + [Asked(a).value] == [Asked(a).value] && [Asked(a).value] + [] == [Asked(a).value];
    }
  }

  /**
   On a half-duplex trace, with any noise in between, every request is reported exactly once, in
   order, with the value of its own reply; nothing is overwritten, and only a last request without
   a reply is left over.
   */
  lemma HalfDuplex(apps: seq<App>, xs: seq<Exchange>, last: seq<App>)
    requires Signal(apps) == Trace(xs) + last && (forall x <- xs :: x.Valid()) && Unanswered(last)
    ensures Run(Start, apps) == State(Requests(last), Outcomes(xs), [], MalformedTimes(apps))
  {
    NoiseIgnored(Start, apps);
    ExchangesSettle(Start, xs, last);
    assert [] + Outcomes(xs) == Outcomes(xs) && [] + MalformedTimes(apps) == MalformedTimes(apps);
  }

  // ------------------------------------------------------------------
  // A re-poll that overtakes
  // ------------------------------------------------------------------

  /** A read request with one address byte and one size byte. */
  function ShortRead(ms: int, address: Byte, size: Byte): App {
    FromTester(ms, [SID_RMBA, 0x11, address, size])
  }

  lemma ShortReadDecodes(ms: int, address: Byte, size: Byte)
    ensures Asked(ShortRead(ms, address, size)) == Some(Request(Key(Rmba, address), size, ms))
  {
    var app := ShortRead(ms, address, size).app;
    assert app[2..3] == [address] && app[3..4] == [size];
    assert FromBigEndian([address]) == address && FromBigEndian([size]) == size;
  }

  /** Reads of A, of B, of A again, then one reply: it goes to the new read of A although B is older. */
  lemma RepollOvertakes()
    ensures
      var st := Run(Start, [ShortRead(1, 0xA, 1), ShortRead(2, 0xB, 1), ShortRead(3, 0xA, 1), FromEcu(4, [0x63, 7])]);
      && st.completed == [Poll(Key(Rmba, 0xA), 1, 3, 4, Some([7]))]
      && st.inFlight == [Request(Key(Rmba, 0xB), 1, 2)]
  {
    ShortReadDecodes(1, 0xA, 1);
    ShortReadDecodes(2, 0xB, 1);
    ShortReadDecodes(3, 0xA, 1);
    var a, b, a' := Request(Key(Rmba, 0xA), 1, 1), Request(Key(Rmba, 0xB), 1, 2), Request(Key(Rmba, 0xA), 1, 3);
    var r := FromEcu(4, [0x63, 7]);
    var s1, s2, s3 := State([a], [], [], []), State([a, b], [], [], []), State([a', b], [], [a], []);
    assert OnApp(Start, ShortRead(1, 0xA, 1)) == s1;
    assert Find([a], b.key) == 1 && OnApp(s1, ShortRead(2, 0xB, 1)) == s2;
    assert [a, b][0 := a'] == [a', b] && OnApp(s2, ShortRead(3, 0xA, 1)) == s3;
    assert Remove([a', b], 0) == [b] && r.app[1..] == [7];
    assert OnApp(s3, r) == State([b], [Answered(a', 4, [7])], [a], []);
    RunFour(Start, ShortRead(1, 0xA, 1), ShortRead(2, 0xB, 1), ShortRead(3, 0xA, 1), r);
  }

  lemma RunFour(st: State, a: App, b: App, c: App, d: App)
    ensures Run(st, [a, b, c, d]) == OnApp(OnApp(OnApp(OnApp(st, a), b), c), d)
  {
    assert [a, b, c, d] == [a] + [b] + [c] + [d];
    RunOne(st, a);
    RunAppend(st, [a], [b]);
    RunOne(OnApp(st, a), b);
    RunAppend(st, [a] + [b], [c]);
    RunOne(OnApp(OnApp(st, a), b), c);
    RunAppend(st, [a] + [b] + [c], [d]);
    RunOne(OnApp(OnApp(OnApp(st, a), b), c), d);
  }

  lemma RunOne(st: State, a: App)
    ensures Run(st, [a]) == OnApp(st, a)
  {
    assert [a][1..] == [];
  }
}

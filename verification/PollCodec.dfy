/** The bytes of poll requests and replies: `_decode_rmba_request`, `_decode_rdbi_request` and the reply tests. */
module PollCodec {
  import opened Basics
  import opened Polls
  import Fields

  // ------------------------------------------------------------------
  // Requests
  // ------------------------------------------------------------------

  /** `app` reads `size` bytes at `address`: service, widths (size above address), both fields, anything. */
  predicate WritesRead(app: Bytes, addressWidth: nat, sizeWidth: nat, address: nat, size: nat, rest: Bytes) {
    && 1 <= addressWidth <= 4 && 1 <= sizeWidth <= 4
    && address < Pow256(addressWidth) && size < Pow256(sizeWidth)
    && app == [0x23, 16 * sizeWidth + addressWidth]
              + ToBigEndian(address, addressWidth) + ToBigEndian(size, sizeWidth) + rest
  }

  lemma Nibbles(low: nat, high: nat)
    requires low < 16 && high < 16
    ensures (16 * high + low) % 16 == low && (16 * high + low) / 16 == high
  {
  }

  /** What the decoder makes of the four parts of a message. */
  lemma DecodeParts(app: Bytes, format: Byte, a: Bytes, s: Bytes, rest: Bytes)
    requires app == [0x23, format] + a + s + rest
    requires |a| == format % 16 && |s| == format / 16 && 1 <= |a| <= 4 && 1 <= |s| <= 4
    ensures DecodeRmba(app) == Some((FromBigEndian(a), FromBigEndian(s)))
  {
    hide FromBigEndian;
    assert app[0] == 0x23 && app[1] == format;
    assert app[2..2 + |a|] == a;
    assert app[2 + |a|..2 + |a| + |s|] == s;
  }

  /** Any widths from 1 to 4, and any bytes after the two fields. */
  lemma ReadDecodes(app: Bytes, addressWidth: nat, sizeWidth: nat, address: nat, size: nat, rest: Bytes)
    requires WritesRead(app, addressWidth, sizeWidth, address, size, rest)
    ensures DecodeRmba(app) == Some((address, size))
  {
    BigEndianRoundTrip(address, addressWidth);
    BigEndianRoundTrip(size, sizeWidth);
    Nibbles(addressWidth, sizeWidth);
    hide ToBigEndian, FromBigEndian, Pow256, DecodeRmba;
    var a, s := ToBigEndian(address, addressWidth), ToBigEndian(size, sizeWidth);
    DecodeParts(app, 16 * sizeWidth + addressWidth, a, s, rest);
  }

  lemma CutInFour(s: Bytes, i: nat, j: nat)
    requires 2 + i + j <= |s|
    ensures s == [s[0], s[1]] + s[2..2 + i] + s[2 + i..2 + i + j] + s[2 + i + j..]
  {
    assert s[..2] == [s[0], s[1]];
    assert s == s[..2] + s[2..2 + i] + s[2 + i..2 + i + j] + s[2 + i + j..];
  }

  lemma WrittenBack(s: Bytes)
    ensures FromBigEndian(s) < Pow256(|s|) && ToBigEndian(FromBigEndian(s), |s|) == s
  {
    Fields.WriteRead(s);
    Fields.FromBigEndianBound(s);
  }

  /** Nothing else decodes. */
  lemma DecodedIsRead(app: Bytes)
    requires DecodeRmba(app).Some?
    ensures var (address, size) := DecodeRmba(app).value;
      WritesRead(app, app[1] % 16, app[1] / 16, address, size, app[2 + app[1] % 16 + app[1] / 16..])
  {
    hide ToBigEndian, FromBigEndian, Pow256;
    var aw, sw := app[1] % 16, app[1] / 16;
    CutInFour(app, aw, sw);
    WrittenBack(app[2..2 + aw]);
    WrittenBack(app[2 + aw..2 + aw + sw]);
  }

  /** A memory read decodes to an address and a size exactly when it writes them. */
  lemma RmbaExact(app: Bytes, address: nat, size: nat)
    ensures DecodeRmba(app) == Some((address, size))
      <==> exists aw: nat, sw: nat, rest :: WritesRead(app, aw, sw, address, size, rest)
  {
    if DecodeRmba(app) == Some((address, size)) {
      DecodedIsRead(app);
    }
    hide WritesRead, DecodeRmba;
    forall aw: nat, sw: nat, rest | WritesRead(app, aw, sw, address, size, rest)
      ensures DecodeRmba(app) == Some((address, size))
    {
      ReadDecodes(app, aw, sw, address, size, rest);
    }
  }

  /** High byte first. */
  function Identifier(hi: Byte, lo: Byte): nat {
    hi as int * 256 + lo as int
  }

  lemma WordReads(app: Bytes, hi: Byte, lo: Byte)
    requires |app| >= 3 && app[1] == hi && app[2] == lo
    ensures Word(app) == Identifier(hi, lo)
  {
    var s := app[1..3];
    assert s[..1] == [hi] && s[..1][..0] == [];
    assert FromBigEndian(s[..1]) == hi;
  }

  /** An identifier read decodes to the two bytes after the service, high byte first. */
  lemma RdbiExact(app: Bytes, did: nat)
    ensures DecodeRdbi(app) == Some(did)
      <==> exists hi: Byte, lo: Byte, rest :: app == [0x22, hi, lo] + rest && did == Identifier(hi, lo)
  {
    if |app| >= 3 {
      WordReads(app, app[1], app[2]);
      assert app == [app[0], app[1], app[2]] + app[3..];
    }
    forall hi: Byte, lo: Byte, rest | app == [0x22, hi, lo] + rest && did == Identifier(hi, lo)
      ensures DecodeRdbi(app) == Some(did)
    {
      assert app[0] == 0x22 && app[1] == hi && app[2] == lo;
    }
  }

  // ------------------------------------------------------------------
  // Questions and answers
  // ------------------------------------------------------------------

  /** What a tester may ask, and how it writes it. */
  datatype Question =
    | ReadMemory(address: nat, size: nat, addressWidth: nat, sizeWidth: nat, rest: Bytes)
    | ReadIdentifier(hi: Byte, lo: Byte, rest: Bytes)
  {
    predicate Valid() {
      ReadMemory? ==>
        && 1 <= addressWidth <= 4 && 1 <= sizeWidth <= 4
        && address < Pow256(addressWidth) && size < Pow256(sizeWidth)
    }

    function Written(): Bytes
      requires Valid()
    {
      if ReadMemory? then
        [0x23, 16 * sizeWidth + addressWidth]
        + ToBigEndian(address, addressWidth) + ToBigEndian(size, sizeWidth) + rest
      else [0x22, hi, lo] + rest
    }

    /** The poll it is: the address and size read, or the identifier. */
    function Asks(): (Key, int) {
      if ReadMemory? then (Key(Rmba, address), size as int) else (Key(Rdbi, Identifier(hi, lo)), -1)
    }
  }

  /** What the ECU may answer in the end, and how it writes it. */
  datatype Answer = Value(value: Bytes) | Refusal(code: Byte, rest: Bytes) {
    predicate Valid() {
      Refusal? ==> code != 0x78
    }

    function Written(q: Question): Bytes {
      match this
      case Refusal(code, rest) => [0x7F, if q.ReadMemory? then 0x23 else 0x22, code] + rest
      case Value(value) => (if q.ReadMemory? then [0x63] else [0x62, q.hi, q.lo]) + value
    }
  }

  /** A question, its answer, and when each was complete. */
  datatype Talk = Talk(question: Question, askedMs: int, answer: Answer, answeredMs: int) {
    predicate Valid() {
      question.Valid() && answer.Valid()
    }

    function Said(): Exchange
      requires Valid()
    {
      Exchange(FromTester(askedMs, question.Written()), FromEcu(answeredMs, answer.Written(question)))
    }

    /** The poll it must be reported as. */
    function Reported(): Poll {
      var (key, size) := question.Asks();
      if answer.Value? then Poll(key, size, askedMs, answeredMs, Some(answer.value))
      else Poll(key, size, askedMs, -1, None)
    }
  }

  lemma QuestionAsked(q: Question, ms: int)
    requires q.Valid()
    ensures Asked(FromTester(ms, q.Written())) == Some(Request(q.Asks().0, q.Asks().1, ms))
  {
    var app := q.Written();
    match q
    case ReadMemory(address, size, aw, sw, rest) =>
      ReadDecodes(app, aw, sw, address, size, rest);
      hide ToBigEndian;
      assert app[0] == 0x23;
    case ReadIdentifier(hi, lo, rest) =>
      assert app[0] == 0x22 && app[1] == hi && app[2] == lo;
      WordReads(app, hi, lo);
  }

  /** What is said this way is a valid exchange, reported with the address and size that were written. */
  lemma SaidReported(t: Talk)
    requires t.Valid()
    ensures t.Said().Valid() && t.Said().Outcome() == t.Reported()
  {
    QuestionAsked(t.question, t.askedMs);
    var app := t.answer.Written(t.question);
    var n := if t.answer.Refusal? || t.question.ReadIdentifier? then 3 else 1;
    assert t.answer.Value? ==> app[n..] == t.answer.value;
    if t.question.ReadIdentifier? && t.answer.Value? {
      assert app[1] == t.question.hi && app[2] == t.question.lo;
      WordReads(app, t.question.hi, t.question.lo);
    }
  }

  function AllSaid(ts: seq<Talk>): (xs: seq<Exchange>)
    requires forall t <- ts :: t.Valid()
    ensures |xs| == |ts|
  {
    if ts == [] then [] else [ts[0].Said()] + AllSaid(ts[1..])
  }

  function AllReported(ts: seq<Talk>): seq<Poll> {
    if ts == [] then [] else [ts[0].Reported()] + AllReported(ts[1..])
  }

  lemma {:induction false} TalksReported(ts: seq<Talk>)
    requires forall t <- ts :: t.Valid()
    ensures forall x <- AllSaid(ts) :: x.Valid()
    ensures Outcomes(AllSaid(ts)) == AllReported(ts)
  {
    if ts != [] {
      SaidReported(ts[0]);
      TalksReported(ts[1..]);
      assert AllSaid(ts)[1..] == AllSaid(ts[1..]);
    }
  }

  // ------------------------------------------------------------------
  // What a message does when several polls are in flight
  // ------------------------------------------------------------------

  /** `i` is the first poll in flight with that key. */
  predicate FirstWithKey(s: seq<Poll>, key: Key, i: nat) {
    i < |s| && s[i].key == key && forall j :: 0 <= j < i ==> s[j].key != key
  }

  /** `i` is the first poll in flight of that kind. */
  predicate FirstOfKind(s: seq<Poll>, kind: Kind, i: nat) {
    i < |s| && s[i].key.kind == kind && forall j :: 0 <= j < i ==> s[j].key.kind != kind
  }

  /** A question about something in flight takes the older poll's place; any other goes to the end. */
  lemma QuestionEffect(st: State, q: Question, ms: int, i: nat)
    requires q.Valid()
    ensures var key := q.Asks().0;
      var p := Poll(key, q.Asks().1, ms, -1, None);
      var st' := OnApp(st, FromTester(ms, q.Written()));
      && st'.completed == st.completed
      && (FirstWithKey(st.inFlight, key, i) ==>
            st'.inFlight == st.inFlight[..i] + [p] + st.inFlight[i + 1..] && st'.lost == st.lost + [st.inFlight[i]])
      && ((forall x <- st.inFlight :: x.key != key) ==>
            st'.inFlight == st.inFlight + [p] && st'.lost == st.lost)
  {
    QuestionAsked(q, ms);
    hide Asked;
    var at := Find(st.inFlight, q.Asks().0);
    if at < |st.inFlight| {
      assert st.inFlight[at] in st.inFlight;
    }
  }

  /** A memory reply completes the first memory read in flight, and no other poll. */
  lemma MemoryReplyEffect(st: State, ms: int, value: Bytes, i: nat)
    ensures var st' := OnApp(st, FromEcu(ms, [0x63] + value));
      && (FirstOfKind(st.inFlight, Rmba, i) ==>
            var p := st.inFlight[i];
            && st'.inFlight == st.inFlight[..i] + st.inFlight[i + 1..]
            && st'.completed == st.completed + [Poll(p.key, p.sizeHint, p.requestMs, ms, Some(value))])
      && ((forall p <- st.inFlight :: p.key.kind != Rmba) ==> st' == st)
  {
    var at := FindKind(st.inFlight, Rmba);
    assert ([0x63] + value)[1..] == value;
    if at < |st.inFlight| {
      assert st.inFlight[at] in st.inFlight;
    }
  }

  /** An identifier reply completes the poll of that identifier, wherever it stands, and no other. */
  lemma IdentifierReplyEffect(st: State, ms: int, hi: Byte, lo: Byte, value: Bytes, i: nat)
    ensures var key := Key(Rdbi, Identifier(hi, lo));
      var st' := OnApp(st, FromEcu(ms, [0x62, hi, lo] + value));
      && (FirstWithKey(st.inFlight, key, i) ==>
            var p := st.inFlight[i];
            && st'.inFlight == st.inFlight[..i] + st.inFlight[i + 1..]
            && st'.completed == st.completed + [Poll(p.key, p.sizeHint, p.requestMs, ms, Some(value))])
      && ((forall p <- st.inFlight :: p.key != key) ==> st' == st)
  {
    var app := [0x62, hi, lo] + value;
    assert app[1] == hi && app[2] == lo && app[3..] == value;
    WordReads(app, hi, lo);
    var at := Find(st.inFlight, Key(Rdbi, Identifier(hi, lo)));
    if at < |st.inFlight| {
      assert st.inFlight[at] in st.inFlight;
    }
  }

  /** `part` stands at the positions `at`, and is of one kind. */
  predicate StandsAt(s: seq<Poll>, kind: Kind, part: seq<Poll>, at: seq<nat>) {
    |at| == |part| && forall i :: 0 <= i < |at| ==> at[i] < |s| && s[at[i]] == part[i] && part[i].key.kind == kind
  }

  predicate Rising(at: seq<nat>) {
    forall i, j :: 0 <= i < j < |at| ==> at[i] < at[j]
  }

  predicate AllOfKind(s: seq<Poll>, kind: Kind, at: seq<nat>) {
    forall k :: 0 <= k < |s| && s[k].key.kind == kind ==> k in at
  }

  /** `part` is the polls of one kind, all of them and in order, and `at` their positions. */
  predicate PartAt(s: seq<Poll>, kind: Kind, part: seq<Poll>, at: seq<nat>) {
    StandsAt(s, kind, part, at) && Rising(at) && AllOfKind(s, kind, at)
  }

  lemma PartAtSnoc(s: seq<Poll>, kind: Kind, part: seq<Poll>, at: seq<nat>, p: Poll)
    requires PartAt(s, kind, part, at)
    ensures p.key.kind == kind ==> PartAt(s + [p], kind, part + [p], at + [|s|])
    ensures p.key.kind != kind ==> PartAt(s + [p], kind, part, at)
  {
    forall k | 0 <= k < |s| && (s + [p])[k].key.kind == kind
      ensures k in at
    {
      assert s[k].key.kind == kind;
    }
  }

  lemma {:induction false} OfKindSnoc(s: seq<Poll>, p: Poll, kind: Kind)
    ensures OfKind(s + [p], kind) == OfKind(s, kind) + if p.key.kind == kind then [p] else []
  {
    if s == [] {
      assert [] + [p] == [p] && [p][1..] == [];
    } else {
      OfKindSnoc(s[1..], p, kind);
      assert (s + [p])[0] == s[0] && (s + [p])[1..] == s[1..] + [p];
      Assoc(if s[0].key.kind == kind then [s[0]] else [], OfKind(s[1..], kind), if p.key.kind == kind then [p] else []);
    }
  }

  lemma {:induction false} OfKindExact(s: seq<Poll>, kind: Kind) returns (at: seq<nat>)
    ensures PartAt(s, kind, OfKind(s, kind), at)
    decreases |s|
  {
    at := [];
    if s != [] {
      hide PartAt, OfKind;
      var front, p := s[..|s| - 1], s[|s| - 1];
      at := OfKindExact(front, kind);
      assert s == front + [p];
      OfKindSnoc(front, p, kind);
      PartAtSnoc(front, kind, OfKind(front, kind), at, p);
      assert OfKind(front, kind) + [] == OfKind(front, kind);
      at := if p.key.kind == kind then at + [|front|] else at;
    }
  }

  /** A rejection of a service completes every poll of that service, unanswered, and keeps every other. */
  lemma RejectionEffect(st: State, ms: int, kind: Kind, code: Byte, more: Bytes)
    returns (gone: seq<Poll>, goneAt: seq<nat>, keptAt: seq<nat>)
    requires code != 0x78
    ensures var st' := OnApp(st, FromEcu(ms, [0x7F, if kind == Rmba then 0x23 else 0x22, code] + more));
      && PartAt(st.inFlight, kind, gone, goneAt) && st'.completed == st.completed + gone
      && PartAt(st.inFlight, if kind == Rmba then Rdbi else Rmba, st'.inFlight, keptAt)
  {
    gone := OfKind(st.inFlight, kind);
    goneAt := OfKindExact(st.inFlight, kind);
    keptAt := OfKindExact(st.inFlight, Other(kind));
  }

  /** A response-pending reply changes nothing, nor does a rejection of another service. */
  lemma NoEffect(st: State, ms: int, sid: Byte, code: Byte, more: Bytes)
    requires code == 0x78 || (sid != 0x22 && sid != 0x23)
    ensures OnApp(st, FromEcu(ms, [0x7F, sid, code] + more)) == st
  {
  }
}

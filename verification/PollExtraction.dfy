/** `extract_polls` over raw frames: reassembly in both directions, pairing, aggregation. */
module PollExtraction {
  import opened Basics
  import opened IsoTp
  import opened Polls
  import R = Reassembly
  import T = TransferExtraction

  // ------------------------------------------------------------------
  // Frames to messages
  // ------------------------------------------------------------------

  /** The message in flight on `id` after `frames`. */
  function Held(frames: seq<Frame>, id: int): Option<Pending> {
    After(None, OfId(id, frames))
  }

  /** The message frame `f` completes, if any; a shared ID counts as the tester's. */
  function Completes(pre: seq<Frame>, f: Frame, requestId: int, responseId: int): seq<App> {
    var out := Next(Held(pre, f.id), f.data).1;
    if out.None? then []
    else if f.id == requestId then [FromTester(f.ms, out.value)]
    else if f.id == responseId then [FromEcu(f.ms, out.value)]
    else []
  }

  /** The messages of both directions in the order their last frames arrive. */
  function Apps(frames: seq<Frame>, requestId: int, responseId: int): seq<App> {
    if frames == [] then []
    else
      var pre := frames[..|frames| - 1];
      Apps(pre, requestId, responseId) + Completes(pre, frames[|frames| - 1], requestId, responseId)
  }

  function TesterSide(apps: seq<App>): seq<Message> {
    if apps == [] then []
    else
      var last := apps[|apps| - 1];
      TesterSide(apps[..|apps| - 1]) + if last.FromTester? then [Message(last.ms, last.app)] else []
  }

  lemma OneMore(frames: seq<Frame>, f: Frame, id: int)
    ensures Held(frames + [f], id) == if f.id == id then Next(Held(frames, id), f.data).0 else Held(frames, id)
    ensures Messages(None, OfId(id, frames + [f])) == Messages(None, OfId(id, frames)) +
      (if f.id != id || Next(Held(frames, id), f.data).1.None? then []
       else [Message(f.ms, Next(Held(frames, id), f.data).1.value)])
  {
    OfIdAppend(id, frames, [f]);
    assert OfId(id, [f]) == if f.id == id then [f] else [];
    AfterAppend(None, OfId(id, frames), OfId(id, [f]));
    MessagesAppend(None, OfId(id, frames), OfId(id, [f]));
    assert [f][1..] == [];
  }

  /** The tester's messages are those of a reassembler fed the request ID alone. */
  lemma {:induction false} TesterMessages(frames: seq<Frame>, requestId: int, responseId: int)
    ensures TesterSide(Apps(frames, requestId, responseId)) == Messages(None, OfId(requestId, frames))
  {
    if frames != [] {
      var pre, f := frames[..|frames| - 1], frames[|frames| - 1];
      TesterMessages(pre, requestId, responseId);
      OneMore(pre, f, requestId);
      assert frames == pre + [f];
      var apps, more := Apps(pre, requestId, responseId), Completes(pre, f, requestId, responseId);
      if more != [] {
        assert (apps + more)[..|apps + more| - 1] == apps;
      } else {
        assert apps + more == apps;
      }
    }
  }

  // ------------------------------------------------------------------
  // Aggregation
  // ------------------------------------------------------------------

  datatype Aggregate = Aggregate(key: Key, pollCount: nat, responseCount: nat, requestMs: seq<int>, values: seq<Bytes>)

  /** The polls of one key, in order. */
  function OfKey(polls: seq<Poll>, key: Key): seq<Poll> {
    if polls == [] then []
    else
      var rest := OfKey(polls[..|polls| - 1], key);
      if polls[|polls| - 1].key == key then rest + [polls[|polls| - 1]] else rest
  }

  function Times(polls: seq<Poll>): seq<int> {
    if polls == [] then [] else Times(polls[..|polls| - 1]) + [polls[|polls| - 1].requestMs]
  }

  function Values(polls: seq<Poll>): seq<Bytes> {
    if polls == [] then []
    else Values(polls[..|polls| - 1]) + if polls[|polls| - 1].value.Some? then [polls[|polls| - 1].value.value] else []
  }

  /** At most the first `n` samples; none for a limit of zero or less. */
  function Samples(vs: seq<Bytes>, n: int): seq<Bytes> {
    vs[..Min(|vs|, Max(0, n))]
  }

  /** What is reported for `key`. */
  function Summary(polls: seq<Poll>, key: Key, maxSamples: int): Aggregate {
    var mine := OfKey(polls, key);
    Aggregate(key, |mine|, |Values(mine)|, Times(mine), Samples(Values(mine), maxSamples))
  }

  /** A poll of that key, answered if `answered` asks for it. */
  predicate Wanted(p: Poll, key: Key, answered: bool) {
    p.key == key && (answered ==> p.value.Some?)
  }

  predicate AllWanted(polls: seq<Poll>, key: Key, answered: bool, at: seq<nat>) {
    forall i :: 0 <= i < |at| ==> at[i] < |polls| && Wanted(polls[at[i]], key, answered)
  }

  predicate Rising(at: seq<nat>) {
    forall i, j :: 0 <= i < j < |at| ==> at[i] < at[j]
  }

  predicate NoneMissing(polls: seq<Poll>, key: Key, answered: bool, at: seq<nat>) {
    forall k :: 0 <= k < |polls| && Wanted(polls[k], key, answered) ==> k in at
  }

  /** `at` lists the positions of the wanted polls, in order, all of them. */
  predicate AllAt(polls: seq<Poll>, key: Key, answered: bool, at: seq<nat>) {
    AllWanted(polls, key, answered, at) && Rising(at) && NoneMissing(polls, key, answered, at)
  }

  lemma WantedSnoc(polls: seq<Poll>, key: Key, answered: bool, at: seq<nat>)
    requires polls != [] && AllWanted(polls[..|polls| - 1], key, answered, at)
    ensures AllWanted(polls, key, answered, at)
    ensures Wanted(polls[|polls| - 1], key, answered) ==> AllWanted(polls, key, answered, at + [|polls| - 1])
  {
    hide Wanted;
  }

  lemma RisingSnoc(at: seq<nat>, n: nat)
    requires Rising(at) && forall i :: 0 <= i < |at| ==> at[i] < n
    ensures Rising(at + [n])
  {
  }

  lemma MissingSnoc(polls: seq<Poll>, key: Key, answered: bool, at: seq<nat>)
    requires polls != [] && NoneMissing(polls[..|polls| - 1], key, answered, at)
    ensures NoneMissing(polls, key, answered, at + [|polls| - 1])
    ensures !Wanted(polls[|polls| - 1], key, answered) ==> NoneMissing(polls, key, answered, at)
  {
    hide Wanted;
    var n := |polls| - 1;
    forall k | 0 <= k < n && Wanted(polls[k], key, answered)
      ensures k in at
    {
      assert polls[..n][k] == polls[k];
    }
  }

  lemma AllAtSnoc(polls: seq<Poll>, key: Key, answered: bool, at: seq<nat>)
    requires polls != [] && AllAt(polls[..|polls| - 1], key, answered, at)
    ensures var n := |polls| - 1;
      AllAt(polls, key, answered, if Wanted(polls[n], key, answered) then at + [n] else at)
  {
    var n := |polls| - 1;
    assert forall i :: 0 <= i < |at| ==> at[i] < n;
    hide Wanted, AllWanted, Rising, NoneMissing;
    WantedSnoc(polls, key, answered, at);
    RisingSnoc(at, n);
    MissingSnoc(polls, key, answered, at);
  }

  lemma SummarySnoc(mine: seq<Poll>, p: Poll)
    ensures Times(mine + [p]) == Times(mine) + [p.requestMs]
    ensures Values(mine + [p]) == Values(mine) + if p.value.Some? then [p.value.value] else []
  {
    assert (mine + [p])[..|mine|] == mine;
  }

  /**
   A record, poll by poll: the request times of all polls of its key, and the first
   samples, up to the limit, of those that were answered.
   */
  lemma RecordExact(polls: seq<Poll>, key: Key, maxSamples: int)
    returns (asked: seq<nat>, answered: seq<nat>)
    ensures AllAt(polls, key, false, asked) && AllAt(polls, key, true, answered)
    ensures var r := Summary(polls, key, maxSamples);
      && r.key == key && r.pollCount == |asked| == |r.requestMs| && r.responseCount == |answered|
      && (forall i :: 0 <= i < |asked| ==> r.requestMs[i] == polls[asked[i]].requestMs)
      && |r.values| == (if maxSamples <= 0 then 0 else if |answered| < maxSamples then |answered| else maxSamples)
      && forall i :: 0 <= i < |r.values| ==> polls[answered[i]].value == Some(r.values[i])
  {
    asked := AskedPositions(polls, key);
    answered := AnsweredPositions(polls, key);
    TimesLength(OfKey(polls, key));
    hide AllAt, Times, Values, OfKey;
  }

  predicate TimesAt(polls: seq<Poll>, at: seq<nat>, times: seq<int>) {
    |times| == |at| && forall i :: 0 <= i < |at| ==> at[i] < |polls| && times[i] == polls[at[i]].requestMs
  }

  predicate ValuesAt(polls: seq<Poll>, at: seq<nat>, values: seq<Bytes>) {
    |values| == |at| && forall i :: 0 <= i < |at| ==> at[i] < |polls| && polls[at[i]].value == Some(values[i])
  }

  lemma TimesAtSnoc(polls: seq<Poll>, at: seq<nat>, times: seq<int>)
    requires polls != [] && TimesAt(polls[..|polls| - 1], at, times)
    ensures TimesAt(polls, at, times)
    ensures TimesAt(polls, at + [|polls| - 1], times + [polls[|polls| - 1].requestMs])
  {
  }

  lemma ValuesAtSnoc(polls: seq<Poll>, at: seq<nat>, values: seq<Bytes>)
    requires polls != [] && ValuesAt(polls[..|polls| - 1], at, values)
    ensures ValuesAt(polls, at, values)
    ensures polls[|polls| - 1].value.Some? ==>
      ValuesAt(polls, at + [|polls| - 1], values + [polls[|polls| - 1].value.value])
  {
  }

  lemma OfKeySnoc(polls: seq<Poll>, key: Key)
    requires polls != []
    ensures var front, p := OfKey(polls[..|polls| - 1], key), polls[|polls| - 1];
      && OfKey(polls, key) == (if p.key == key then front + [p] else front)
      && (Wanted(p, key, false) <==> p.key == key)
      && (Wanted(p, key, true) <==> p.key == key && p.value.Some?)
  {
  }

  lemma {:induction false} AskedPositions(polls: seq<Poll>, key: Key) returns (at: seq<nat>)
    ensures AllAt(polls, key, false, at) && TimesAt(polls, at, Times(OfKey(polls, key)))
    decreases |polls|
  {
    at := [];
    if polls != [] {
      hide AllAt, TimesAt, Times, OfKey, Wanted;
      var n := |polls| - 1;
      at := AskedPositions(polls[..n], key);
      var mine := OfKey(polls[..n], key);
      AllAtSnoc(polls, key, false, at);
      TimesAtSnoc(polls, at, Times(mine));
      SummarySnoc(mine, polls[n]);
      OfKeySnoc(polls, key);
      at := if polls[n].key == key then at + [n] else at;
    }
  }

  /** The last poll counts if it is of the key and answered. */
  lemma ValuesStep(polls: seq<Poll>, key: Key)
    requires polls != []
    ensures var front, p := Values(OfKey(polls[..|polls| - 1], key)), polls[|polls| - 1];
      Values(OfKey(polls, key)) == if Wanted(p, key, true) then front + [p.value.value] else front
  {
    hide OfKey, Values;
    var mine := OfKey(polls[..|polls| - 1], key);
    SummarySnoc(mine, polls[|polls| - 1]);
    OfKeySnoc(polls, key);
    assert Values(mine) + [] == Values(mine);
  }

  lemma {:induction false} AnsweredPositions(polls: seq<Poll>, key: Key) returns (at: seq<nat>)
    ensures AllAt(polls, key, true, at) && ValuesAt(polls, at, Values(OfKey(polls, key)))
    decreases |polls|
  {
    at := [];
    if polls != [] {
      var n := |polls| - 1;
      at := AnsweredPositions(polls[..n], key);
      AllAtSnoc(polls, key, true, at);
      ValuesAtSnoc(polls, at, Values(OfKey(polls[..n], key)));
      ValuesStep(polls, key);
      assert Wanted(polls[n], key, true) ==> polls[n].value.Some?;
      hide *;
      if Wanted(polls[n], key, true) {
        at := at + [n];
      }
    }
  }

  lemma {:induction false} TimesLength(polls: seq<Poll>)
    ensures |Times(polls)| == |polls|
  {
    if polls != [] {
      TimesLength(polls[..|polls| - 1]);
    }
  }

  /** `agg` updated in place for one more poll of its key. */
  function Add(agg: Aggregate, p: Poll, maxSamples: int): Aggregate {
    var a := agg.(pollCount := agg.pollCount + 1, requestMs := agg.requestMs + [p.requestMs]);
    if p.value.None? then a
    else if |a.values| < maxSamples then a.(responseCount := a.responseCount + 1, values := a.values + [p.value.value])
    else a.(responseCount := a.responseCount + 1)
  }

  lemma SummaryStep(polls: seq<Poll>, p: Poll, maxSamples: int)
    ensures Summary(polls + [p], p.key, maxSamples) == Add(Summary(polls, p.key, maxSamples), p, maxSamples)
    ensures forall k :: k != p.key ==> OfKey(polls + [p], k) == OfKey(polls, k)
  {
    assert (polls + [p])[..|polls|] == polls;
    var mine := OfKey(polls, p.key);
    assert (mine + [p])[..|mine|] == mine;
    SamplesStep(Values(mine), if p.value.Some? then p.value.value else [], maxSamples);
    assert Values(mine) + [] == Values(mine);
  }

  lemma SamplesStep(vs: seq<Bytes>, v: Bytes, n: int)
    ensures Samples(vs + [v], n) == if |Samples(vs, n)| < n then Samples(vs, n) + [v] else Samples(vs, n)
  {
  }

  predicate Before(a: Key, b: Key) {
    (a.kind == Rdbi && b.kind == Rmba) || (a.kind == b.kind && a.address < b.address)
  }

  predicate Sorted(s: seq<Aggregate>) {
    forall i, j :: 0 <= i < j < |s| ==> Before(s[i].key, s[j].key)
  }

  /** Strictly sorted by key, and exactly one correct summary per key that was polled. */
  ghost predicate Reports(s: seq<Aggregate>, polls: seq<Poll>, maxSamples: int) {
    && Sorted(s)
    && (forall a <- s :: a == Summary(polls, a.key, maxSamples) && a.pollCount > 0)
    && (forall p <- polls :: exists a :: a in s && a.key == p.key)
  }

  function Insert(s: seq<Aggregate>, a: Aggregate): (r: seq<Aggregate>)
    requires Sorted(s) && forall b <- s :: b.key != a.key
    ensures Sorted(r)
    ensures forall b :: b in r <==> b in s || b == a
  {
    if s == [] then [a]
    else if Before(a.key, s[0].key) then
      assert forall b <- s :: b.key == s[0].key || Before(s[0].key, b.key);
      [a] + s
    else
      assert Before(s[0].key, a.key) && s[0] in s;
      assert forall b <- s[1..] :: b in s && Before(s[0].key, b.key);
      [s[0]] + Insert(s[1..], a)
  }

  /** The dictionary of aggregates, built poll by poll. */
  method Group(polls: seq<Poll>, maxSamples: int) returns (byKey: map<Key, Aggregate>)
    ensures forall k :: k in byKey <==> OfKey(polls, k) != []
    ensures forall k <- byKey :: byKey[k] == Summary(polls, k, maxSamples)
  {
    byKey := map[];
    for i := 0 to |polls|
      invariant forall k :: k in byKey <==> OfKey(polls[..i], k) != []
      invariant forall k <- byKey :: byKey[k] == Summary(polls[..i], k, maxSamples)
    {
      var p := polls[i];
      assert polls[..i + 1] == polls[..i] + [p];
      SummaryStep(polls[..i], p, maxSamples);
      if p.key !in byKey {
        byKey := byKey[p.key := Aggregate(p.key, 0, 0, [], [])];
      }
      byKey := byKey[p.key := Add(byKey[p.key], p, maxSamples)];
    }
    assert polls[..|polls|] == polls;
  }

  lemma {:induction false} Polled(polls: seq<Poll>, p: Poll)
    requires p in polls
    ensures OfKey(polls, p.key) != []
  {
    if polls[|polls| - 1] != p {
      assert p in polls[..|polls| - 1];
      Polled(polls[..|polls| - 1], p);
    }
  }

  /** `sorted(by_addr.values(), key=(kind, address))`. */
  method SortedValues(byKey: map<Key, Aggregate>) returns (s: seq<Aggregate>)
    requires forall k <- byKey :: byKey[k].key == k
    ensures Sorted(s)
    ensures forall a :: a in s <==> a.key in byKey && byKey[a.key] == a
  {
    s := [];
    var left := byKey.Keys;
    while left != {}
      invariant left <= byKey.Keys && Sorted(s)
      invariant forall a :: a in s <==> a.key in byKey.Keys - left && byKey[a.key] == a
      decreases |left|
    {
      var k :| k in left;
      s := Insert(s, byKey[k]);
      left := left - {k};
    }
  }

  method AggregatePolls(polls: seq<Poll>, maxSamples: int) returns (s: seq<Aggregate>)
    ensures Reports(s, polls, maxSamples)
  {
    var byKey := Group(polls, maxSamples);
    s := SortedValues(byKey);
    forall p | p in polls
      ensures exists a :: a in s && a.key == p.key
    {
      Polled(polls, p);
      assert byKey[p.key] in s;
    }
  }

  // ------------------------------------------------------------------
  // The aggregated counts add up
  // ------------------------------------------------------------------

  function TotalPolls(s: seq<Aggregate>): nat {
    if s == [] then 0 else s[0].pollCount + TotalPolls(s[1..])
  }

  function KeysOf(s: seq<Aggregate>): seq<Key> {
    if s == [] then [] else [s[0].key] + KeysOf(s[1..])
  }

  function SumOver(ks: seq<Key>, polls: seq<Poll>): nat {
    if ks == [] then 0 else |OfKey(polls, ks[0])| + SumOver(ks[1..], polls)
  }

  /** How often `k` stands in `ks`. */
  function Occurrences(ks: seq<Key>, k: Key): nat {
    if ks == [] then 0 else (if ks[0] == k then 1 else 0) + Occurrences(ks[1..], k)
  }

  lemma {:induction false} SumOverSnoc(ks: seq<Key>, polls: seq<Poll>, p: Poll)
    ensures SumOver(ks, polls + [p]) == SumOver(ks, polls) + Occurrences(ks, p.key)
  {
    assert (polls + [p])[..|polls|] == polls;
    if ks != [] {
      SumOverSnoc(ks[1..], polls, p);
    }
  }

  lemma {:induction false} SumOverAll(ks: seq<Key>, polls: seq<Poll>)
    requires forall p <- polls :: Occurrences(ks, p.key) == 1
    ensures SumOver(ks, polls) == |polls|
  {
    if polls == [] {
      SumOverNothing(ks);
    } else {
      var pre, p := polls[..|polls| - 1], polls[|polls| - 1];
      assert polls == pre + [p] && p in polls && forall q <- pre :: q in polls;
      SumOverAll(ks, pre);
      SumOverSnoc(ks, pre, p);
    }
  }

  lemma {:induction false} SumOverNothing(ks: seq<Key>)
    ensures SumOver(ks, []) == 0
  {
    if ks != [] {
      SumOverNothing(ks[1..]);
    }
  }

  lemma {:induction false} AbsentKey(s: seq<Aggregate>, k: Key)
    requires forall a <- s :: a.key != k
    ensures Occurrences(KeysOf(s), k) == 0
  {
    if s != [] {
      assert s[0] in s && forall a <- s[1..] :: a in s;
      AbsentKey(s[1..], k);
      assert KeysOf(s)[1..] == KeysOf(s[1..]);
    }
  }

  lemma {:induction false} PresentKey(s: seq<Aggregate>, a: Aggregate)
    requires Sorted(s) && a in s
    ensures Occurrences(KeysOf(s), a.key) == 1
  {
    assert KeysOf(s)[1..] == KeysOf(s[1..]);
    if s[0] == a {
      forall b | b in s[1..]
        ensures b.key != a.key
      {
        assert Before(s[0].key, b.key);
      }
      AbsentKey(s[1..], a.key);
    } else {
      assert a in s[1..];
      PresentKey(s[1..], a);
      var i :| 0 <= i < |s| && s[i] == a;
      assert Before(s[0].key, s[i].key);
    }
  }

  lemma {:induction false} TotalIsSum(s: seq<Aggregate>, polls: seq<Poll>, maxSamples: int)
    requires forall a <- s :: a == Summary(polls, a.key, maxSamples)
    ensures TotalPolls(s) == SumOver(KeysOf(s), polls)
  {
    if s != [] {
      assert s[0] in s && forall a <- s[1..] :: a in s;
      TotalIsSum(s[1..], polls, maxSamples);
      assert KeysOf(s)[1..] == KeysOf(s[1..]);
    }
  }

  /** The poll counts of a report add up to the completed polls. */
  lemma CountsConserved(s: seq<Aggregate>, polls: seq<Poll>, maxSamples: int)
    requires Reports(s, polls, maxSamples)
    ensures TotalPolls(s) == |polls|
  {
    TotalIsSum(s, polls, maxSamples);
    forall p | p in polls
      ensures Occurrences(KeysOf(s), p.key) == 1
    {
      var a :| a in s && a.key == p.key;
      PresentKey(s, a);
    }
    SumOverAll(KeysOf(s), polls);
  }

  // ------------------------------------------------------------------
  // The frame loop
  // ------------------------------------------------------------------

  /** Reassembly of one frame; the result is the message it completes, if any. */
  method Reassemble(req: R.Reassembler, resp: R.Reassembler, f: Frame, requestId: int, responseId: int,
                    ghost pre: seq<Frame>)
    returns (apps: seq<App>)
    requires T.Apart(req, resp)
    requires R.Get(req.State(), requestId) == Held(pre, requestId)
    requires requestId != responseId ==> R.Get(resp.State(), responseId) == Held(pre, responseId)
    modifies req, resp, req.pending.Values, resp.pending.Values
    ensures T.Apart(req, resp)
    ensures fresh(req.pending.Values - old(req.pending.Values))
    ensures fresh(resp.pending.Values - old(resp.pending.Values))
    ensures R.Get(req.State(), requestId) == Held(pre + [f], requestId)
    ensures requestId != responseId ==> R.Get(resp.State(), responseId) == Held(pre + [f], responseId)
    ensures apps == Completes(pre, f, requestId, responseId)
  {
    hide Next;
    apps := [];
    OneMore(pre, f, requestId);
    OneMore(pre, f, responseId);
    if f.id == requestId {
      var msg := req.Feed(f.id, f.data);
      if msg.Some? {
        apps := [FromTester(f.ms, msg.value)];
      }
      assert forall o :: o in resp.pending.Values ==> old(allocated(o)) && o !in old(req.pending.Values);
    } else if f.id == responseId {
      var msg := resp.Feed(f.id, f.data);
      if msg.Some? {
        apps := [FromEcu(f.ms, msg.value)];
      }
      assert forall o :: o in req.pending.Values ==> old(allocated(o)) && o !in old(resp.pending.Values);
    }
  }

  /** A tester's message: a read request enters the dict, a malformed one is warned about. */
  method HandleRequest(ms: int, app: Bytes, ghost st: State, inFlight: seq<Poll>, malformed: seq<int>)
    returns (inFlight': seq<Poll>, malformed': seq<int>)
    requires st.inFlight == inFlight && st.malformed == malformed
    ensures var st' := OnApp(st, FromTester(ms, app));
      inFlight' == st'.inFlight && malformed' == st'.malformed && st'.completed == st.completed
  {
    inFlight', malformed' := inFlight, malformed;
    if |app| < 1 {
      return;
    }
    if app[0] == SID_RMBA {
      var decoded := DecodeRmba(app);
      if decoded.None? {
        malformed' := malformed + [ms];
        return;
      }
      var (address, size) := decoded.value;
      inFlight' := Store(inFlight, Request(Key(Rmba, address), size, ms));
    } else if app[0] == SID_RDBI {
      var decoded := DecodeRdbi(app);
      if decoded.None? {
        malformed' := malformed + [ms];
        return;
      }
      inFlight' := Store(inFlight, Request(Key(Rdbi, decoded.value), -1, ms));
    }
  }

  /** The ECU's message: a value is paired, a rejection drops every read of its service. */
  method HandleReply(ms: int, app: Bytes, ghost st: State, inFlight: seq<Poll>, completed: seq<Poll>)
    returns (inFlight': seq<Poll>, completed': seq<Poll>)
    requires st.inFlight == inFlight && st.completed == completed
    ensures var st' := OnApp(st, FromEcu(ms, app));
      inFlight' == st'.inFlight && completed' == st'.completed && st'.malformed == st.malformed
  {
    inFlight', completed' := inFlight, completed;
    if |app| < 1 {
      return;
    }
    var sid := app[0];
    if sid == NEGATIVE_RESPONSE && |app| >= 3 {
      if app[2] == RESPONSE_PENDING || (app[1] != SID_RMBA && app[1] != SID_RDBI) {
        return;
      }
      var kind := if app[1] == SID_RMBA then Rmba else Rdbi;
      completed' := completed + OfKind(inFlight, kind);
      inFlight' := OfKind(inFlight, Other(kind));
    } else if sid == SID_RMBA + 0x40 {
      var i := FindKind(inFlight, Rmba);
      if i < |inFlight| {
        completed' := completed + [inFlight[i].(responseMs := ms, value := Some(app[1..]))];
        inFlight' := Remove(inFlight, i);
      }
    } else if sid == SID_RDBI + 0x40 {
      if |app| < 3 {
        return;
      }
      var i := Find(inFlight, Key(Rdbi, Word(app)));
      if i < |inFlight| {
        completed' := completed + [inFlight[i].(responseMs := ms, value := Some(app[3..]))];
        inFlight' := Remove(inFlight, i);
      }
    }
  }

  /**
   `extract_polls`: the report groups exactly the completed polls of the trace, and the
   warnings are the times of its malformed requests.
   */
  method ExtractPolls(frames: seq<Frame>, requestId: int, responseId: int, maxSamples: int)
    returns (report: seq<Aggregate>, malformed: seq<int>)
    ensures var st := Run(Start, Apps(frames, requestId, responseId));
      && Reports(report, Completed(st), maxSamples)
      && TotalPolls(report) == |Completed(st)|
      && malformed == st.malformed
  {
    hide OnApp, Completes, Reports, Next;
    var req := new R.Reassembler();
    var resp := new R.Reassembler();
    var inFlight: seq<Poll>, completed: seq<Poll> := [], [];
    malformed := [];
    ghost var st := Start;
    for i := 0 to |frames|
      invariant T.Apart(req, resp) && fresh(req) && fresh(resp)
      invariant fresh(req.pending.Values) && fresh(resp.pending.Values)
      invariant R.Get(req.State(), requestId) == Held(frames[..i], requestId)
      invariant requestId != responseId ==> R.Get(resp.State(), responseId) == Held(frames[..i], responseId)
      invariant st == Run(Start, Apps(frames[..i], requestId, responseId))
      invariant inFlight == st.inFlight && completed == st.completed && malformed == st.malformed
    {
      var f := frames[i];
      var apps := Reassemble(req, resp, f, requestId, responseId, frames[..i]);
      OneFrame(frames, i, requestId, responseId);
      if apps != [] {
        match apps[0] {
          case FromTester(ms, app) => inFlight, malformed := HandleRequest(ms, app, st, inFlight, malformed);
          case FromEcu(ms, app) => inFlight, completed := HandleReply(ms, app, st, inFlight, completed);
        }
        st := OnApp(st, apps[0]);
      }
    }
    assert frames[..|frames|] == frames;
    completed := completed + inFlight;
    report := AggregatePolls(completed, maxSamples);
    CountsConserved(report, completed, maxSamples);
  }

  lemma OneFrame(frames: seq<Frame>, i: nat, requestId: int, responseId: int)
    requires i < |frames|
    ensures frames[..i + 1] == frames[..i] + [frames[i]]
    ensures var st := Run(Start, Apps(frames[..i], requestId, responseId));
      var more := Completes(frames[..i], frames[i], requestId, responseId);
      Run(Start, Apps(frames[..i + 1], requestId, responseId)) == if more == [] then st else OnApp(st, more[0])
  {
    hide OnApp;
    var pre := frames[..i];
    var more := Completes(pre, frames[i], requestId, responseId);
    assert frames[..i + 1][..i] == pre;
    RunAppend(Start, Apps(pre, requestId, responseId), more);
    if more != [] {
      assert more == [more[0]];
      RunOne(Run(Start, Apps(pre, requestId, responseId)), more[0]);
    }
  }
}

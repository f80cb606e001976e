/** In what order memory reads are answered when a `63` reply names no address. */
module PollOrder {
  import opened Basics
  import opened IsoTp
  import opened Polls

  // ------------------------------------------------------------------
  // Arrival order
  // ------------------------------------------------------------------

  /** The machine with, beside each poll in flight, the number of the message that asked for it. */
  datatype Stamped = Stamped(st: State, ages: seq<nat>, now: nat) {
    predicate Aligned() {
      |ages| == |st.inFlight|
    }
  }

  const Begin := Stamped(Start, [], 0)

  /** The ages beside the polls of one kind. */
  function AgesOfKind(s: seq<Poll>, ages: seq<nat>, kind: Kind): (r: seq<nat>)
    requires |ages| == |s|
    ensures |r| == |OfKind(s, kind)|
  {
    if s == [] then []
    else if s[0].key.kind == kind then [ages[0]] + AgesOfKind(s[1..], ages[1..], kind)
    else AgesOfKind(s[1..], ages[1..], kind)
  }

  /** The ages a reply leaves: those of the polls it leaves in flight. */
  function AgesAfterReply(s: seq<Poll>, ages: seq<nat>, app: Bytes): seq<nat>
    requires |ages| == |s|
  {
    if !IsFinal(app) then ages
    else if app[0] == NEGATIVE_RESPONSE then AgesOfKind(s, ages, if app[1] == SID_RMBA then Rdbi else Rmba)
    else
      var i := if app[0] == 0x63 then FindKind(s, Rmba) else Find(s, Key(Rdbi, Word(app)));
      if i < |s| then Remove(ages, i) else ages
  }

  /** A request's age is its number; a re-poll gives its slot a new one. */
  function AgesAfter(x: Stamped, a: App): seq<nat>
    requires x.Aligned()
  {
    if a.FromEcu? then AgesAfterReply(x.st.inFlight, x.ages, a.app)
    else if Asked(a).None? then x.ages
    else
      var i := Find(x.st.inFlight, Asked(a).value.key);
      if i < |x.ages| then x.ages[i := x.now] else x.ages + [x.now]
  }

  function Step(x: Stamped, a: App): (y: Stamped)
    requires x.Aligned()
    ensures y.Aligned() && y.st == OnApp(x.st, a) && y.now == x.now + 1
  {
    Stamped(OnApp(x.st, a), AgesAfter(x, a), x.now + 1)
  }

  function RunStamped(x: Stamped, apps: seq<App>): (y: Stamped)
    requires x.Aligned()
    ensures y.Aligned() && y.st == Run(x.st, apps) && y.now == x.now + |apps|
    decreases |apps|
  {
    if apps == [] then x else RunStamped(Step(x, apps[0]), apps[1..])
  }

  lemma {:induction false} RunStampedAppend(x: Stamped, a: seq<App>, b: seq<App>)
    requires x.Aligned()
    ensures RunStamped(x, a + b) == RunStamped(RunStamped(x, a), b)
    decreases |a|
  {
    hide Step;
    if a == [] {
      assert a + b == b;
    } else {
      RunStampedAppend(Step(x, a[0]), a[1..], b);
      assert (a + b)[0] == a[0] && (a + b)[1..] == a[1..] + b;
    }
  }

  // ------------------------------------------------------------------
  // Ages are message numbers
  // ------------------------------------------------------------------

  /** Slot by slot: the age is the number of the message in `apps` that asked for the poll. */
  predicate DatedSlots(s: seq<Poll>, ages: seq<nat>, apps: seq<App>)
    requires |ages| == |s|
  {
    forall i :: 0 <= i < |s| ==> ages[i] < |apps| && Asked(apps[ages[i]]) == Some(s[i])
  }

  lemma {:induction false} DatedOfKind(s: seq<Poll>, ages: seq<nat>, kind: Kind, apps: seq<App>)
    requires |ages| == |s| && DatedSlots(s, ages, apps)
    ensures DatedSlots(OfKind(s, kind), AgesOfKind(s, ages, kind), apps)
  {
    hide Asked;
    if s != [] {
      DatedOfKind(s[1..], ages[1..], kind, apps);
    }
  }

  lemma DatedRemove(s: seq<Poll>, ages: seq<nat>, i: nat, apps: seq<App>)
    requires |ages| == |s| && i < |s| && DatedSlots(s, ages, apps)
    ensures DatedSlots(Remove(s, i), Remove(ages, i), apps)
  {
    hide Asked;
  }

  lemma DatedReply(x: Stamped, a: App, apps: seq<App>)
    requires x.Aligned() && DatedSlots(x.st.inFlight, x.ages, apps) && a.FromEcu?
    ensures DatedSlots(Step(x, a).st.inFlight, Step(x, a).ages, apps)
  {
    hide Asked, DatedSlots, Word;
    var s := x.st.inFlight;
    DatedOfKind(s, x.ages, Rmba, apps);
    DatedOfKind(s, x.ages, Rdbi, apps);
    if IsFinal(a.app) && a.app[0] != NEGATIVE_RESPONSE {
      var i := if a.app[0] == 0x63 then FindKind(s, Rmba) else Find(s, Key(Rdbi, Word(a.app)));
      if i < |s| {
        DatedRemove(s, x.ages, i, apps);
      }
    }
  }

  lemma DatedStep(x: Stamped, a: App, apps: seq<App>)
    requires x.Aligned() && DatedSlots(x.st.inFlight, x.ages, apps) && x.now == |apps|
    ensures DatedSlots(Step(x, a).st.inFlight, Step(x, a).ages, apps + [a])
  {
    hide OnReply, AgesAfterReply;
    assert forall i :: 0 <= i < |apps| ==> (apps + [a])[i] == apps[i];
    if a.FromEcu? {
      DatedReply(x, a, apps);
    }
  }

  /** In every reachable state, a poll's age is the number of the message that asked for it. */
  lemma {:induction false} AgesAreNumbers(apps: seq<App>)
    ensures var x := RunStamped(Begin, apps);
      DatedSlots(x.st.inFlight, x.ages, apps)
    decreases |apps|
  {
    hide Step, DatedSlots;
    if apps == [] {
      NoSlots();
    } else {
      var pre, a := apps[..|apps| - 1], apps[|apps| - 1];
      assert apps == pre + [a];
      AgesAreNumbers(pre);
      RunStampedAppend(Begin, pre, [a]);
      assert [a][1..] == [];
      DatedStep(RunStamped(Begin, pre), a, pre);
    }
  }

  lemma NoSlots()
    ensures DatedSlots([], [], [])
  {
  }

  // ------------------------------------------------------------------
  // Oldest first
  // ------------------------------------------------------------------

  predicate IsRead(p: Poll) {
    p.key.kind == Rmba
  }

  /** The poll in slot `i` is a read that was asked for before every other read in flight. */
  predicate Oldest(s: seq<Poll>, ages: seq<nat>, i: nat)
    requires |ages| == |s| && i < |s|
  {
    IsRead(s[i]) && forall k :: 0 <= k < |s| && k != i && IsRead(s[k]) ==> ages[i] < ages[k]
  }

  /** The reads stand in the order they were asked for. */
  predicate InOrder(s: seq<Poll>, ages: seq<nat>)
    requires |ages| == |s|
  {
    forall i, k :: 0 <= i < k < |s| && IsRead(s[i]) && IsRead(s[k]) ==> ages[i] < ages[k]
  }

  predicate Ordered(x: Stamped)
    requires x.Aligned()
  {
    InOrder(x.st.inFlight, x.ages)
  }

  predicate IsReadReply(a: App) {
    a.FromEcu? && a.app != [] && a.app[0] == 0x63
  }

  /** A read reply now would be paired with the oldest read in flight, if there is one. */
  predicate AnswersOldest(x: Stamped)
    requires x.Aligned()
  {
    var i := FindKind(x.st.inFlight, Rmba);
    i < |x.st.inFlight| ==> Oldest(x.st.inFlight, x.ages, i)
  }

  /** What a read reply does: it takes out the first read. */
  lemma ReadReplyTakesFirst(x: Stamped, r: App)
    requires x.Aligned() && IsReadReply(r)
    ensures var i, y := FindKind(x.st.inFlight, Rmba), Step(x, r);
      if i == |x.st.inFlight| then y.st == x.st && y.ages == x.ages
      else
        && y.st.inFlight == Remove(x.st.inFlight, i) && y.ages == Remove(x.ages, i)
        && y.st.completed == x.st.completed + [Answered(x.st.inFlight[i], r.ms, r.app[1..])]
  {
  }

  /** Read replies, one after the other until no read is left, answer the oldest each time. */
  predicate DrainsOldestFirst(x: Stamped, r: App)
    requires x.Aligned() && IsReadReply(r)
    decreases |x.st.inFlight|
  {
    ReadReplyTakesFirst(x, r);
    FindKind(x.st.inFlight, Rmba) == |x.st.inFlight| || (AnswersOldest(x) && DrainsOldestFirst(Step(x, r), r))
  }

  /** Taking out the first read leaves the order of the others as it was. */
  lemma OrderSplits(s: seq<Poll>, ages: seq<nat>)
    requires |ages| == |s| && FindKind(s, Rmba) < |s|
    ensures var i := FindKind(s, Rmba);
      InOrder(s, ages) <==> Oldest(s, ages, i) && InOrder(Remove(s, i), Remove(ages, i))
  {
    var i := FindKind(s, Rmba);
    var s', ages' := Remove(s, i), Remove(ages, i);
    assert forall k :: 0 <= k < i ==> s'[k] == s[k] && ages'[k] == ages[k];
    assert forall k :: i <= k < |s'| ==> s'[k] == s[k + 1] && ages'[k] == ages[k + 1];
    if Oldest(s, ages, i) && InOrder(s', ages') {
      forall j, k | 0 <= j < k < |s| && IsRead(s[j]) && IsRead(s[k])
        ensures ages[j] < ages[k]
      {
        if j > i {
          assert s'[j - 1] == s[j] && s'[k - 1] == s[k];
        }
      }
    }
  }

  /** The reads stand in order exactly when draining them answers the oldest first each time. */
  lemma {:induction false} DrainExact(x: Stamped, r: App)
    requires x.Aligned() && IsReadReply(r)
    ensures Ordered(x) <==> DrainsOldestFirst(x, r)
    decreases |x.st.inFlight|
  {
    hide Step, InOrder, Oldest;
    ReadReplyTakesFirst(x, r);
    var s := x.st.inFlight;
    if FindKind(s, Rmba) == |s| {
      NoReads(s, x.ages);
    } else {
      OrderSplits(s, x.ages);
      DrainExact(Step(x, r), r);
    }
  }

  lemma NoReads(s: seq<Poll>, ages: seq<nat>)
    requires |ages| == |s| && FindKind(s, Rmba) == |s|
    ensures InOrder(s, ages)
  {
  }

  // ------------------------------------------------------------------
  // What keeps the order
  // ------------------------------------------------------------------

  /** A read request for an address that is not in flight, or is the last read in flight. */
  predicate RepollOk(st: State, a: App) {
    Asked(a).Some? && IsRead(Asked(a).value) ==>
      forall k :: Find(st.inFlight, Asked(a).value.key) < k < |st.inFlight| ==> !IsRead(st.inFlight[k])
  }

  /** No poll in flight was asked for by a message still to come. */
  predicate Past(x: Stamped) {
    forall i :: 0 <= i < |x.ages| ==> x.ages[i] < x.now
  }

  /** `t` with its ages is what is left of `s` with its ages: nothing moved, nothing changed. */
  ghost predicate LeftOf(t: seq<Poll>, tAges: seq<nat>, s: seq<Poll>, sAges: seq<nat>, at: seq<nat>)
    requires |tAges| == |t| && |sAges| == |s|
  {
    && |at| == |t|
    && (forall i :: 0 <= i < |at| ==> at[i] < |s| && t[i] == s[at[i]] && tAges[i] == sAges[at[i]])
    && forall i, k :: 0 <= i < k < |at| ==> at[i] < at[k]
  }

  lemma LeftOfKeeps(t: seq<Poll>, tAges: seq<nat>, s: seq<Poll>, sAges: seq<nat>, at: seq<nat>)
    requires |tAges| == |t| && |sAges| == |s| && LeftOf(t, tAges, s, sAges, at) && InOrder(s, sAges)
    ensures InOrder(t, tAges)
  {
  }

  function Moved(at: seq<nat>): (r: seq<nat>)
    ensures |r| == |at| && forall i :: 0 <= i < |at| ==> r[i] == at[i] + 1
  {
    seq(|at|, i requires 0 <= i < |at| => at[i] + 1)
  }

  lemma LeftOfTail(t: seq<Poll>, tAges: seq<nat>, s: seq<Poll>, sAges: seq<nat>, at: seq<nat>)
    requires |tAges| == |t| && |sAges| == |s| && s != [] && LeftOf(t, tAges, s[1..], sAges[1..], at)
    ensures LeftOf(t, tAges, s, sAges, Moved(at))
  {
  }

  lemma LeftOfCons(t: seq<Poll>, tAges: seq<nat>, s: seq<Poll>, sAges: seq<nat>, at: seq<nat>)
    requires |tAges| == |t| && |sAges| == |s| && s != [] && LeftOf(t, tAges, s[1..], sAges[1..], at)
    ensures LeftOf([s[0]] + t, [sAges[0]] + tAges, s, sAges, [0] + Moved(at))
  {
    var u, uAges, to := [s[0]] + t, [sAges[0]] + tAges, [0] + Moved(at);
    forall i | 0 <= i < |to|
      ensures to[i] < |s| && u[i] == s[to[i]] && uAges[i] == sAges[to[i]]
    {
      if i > 0 {
        assert t[i - 1] == s[1..][at[i - 1]];
      }
    }
  }

  lemma {:induction false} KindLeft(s: seq<Poll>, ages: seq<nat>, kind: Kind) returns (at: seq<nat>)
    requires |ages| == |s|
    ensures LeftOf(OfKind(s, kind), AgesOfKind(s, ages, kind), s, ages, at)
  {
    if s == [] {
      at := [];
    } else {
      hide LeftOf;
      var rest, restAges := OfKind(s[1..], kind), AgesOfKind(s[1..], ages[1..], kind);
      var tail := KindLeft(s[1..], ages[1..], kind);
      if s[0].key.kind == kind {
        LeftOfCons(rest, restAges, s, ages, tail);
        at := [0] + Moved(tail);
      } else {
        LeftOfTail(rest, restAges, s, ages, tail);
        at := Moved(tail);
      }
    }
  }

  lemma RemovedLeft(s: seq<Poll>, ages: seq<nat>, i: nat) returns (at: seq<nat>)
    requires |ages| == |s| && i < |s|
    ensures LeftOf(Remove(s, i), Remove(ages, i), s, ages, at)
  {
    at := seq(|s| - 1, k requires 0 <= k < |s| - 1 => if k < i then k else k + 1);
  }

  lemma ReplyKeepsOrder(x: Stamped, a: App)
    requires x.Aligned() && Ordered(x) && a.FromEcu?
    ensures Ordered(Step(x, a))
  {
    hide InOrder, LeftOf, Word;
    var s := x.st.inFlight;
    var asked := KindLeft(s, x.ages, Rmba);
    var others := KindLeft(s, x.ages, Rdbi);
    LeftOfKeeps(OfKind(s, Rmba), AgesOfKind(s, x.ages, Rmba), s, x.ages, asked);
    LeftOfKeeps(OfKind(s, Rdbi), AgesOfKind(s, x.ages, Rdbi), s, x.ages, others);
    if IsFinal(a.app) && a.app[0] != NEGATIVE_RESPONSE {
      var i := if a.app[0] == 0x63 then FindKind(s, Rmba) else Find(s, Key(Rdbi, Word(a.app)));
      if i < |s| {
        var at := RemovedLeft(s, x.ages, i);
        LeftOfKeeps(Remove(s, i), Remove(x.ages, i), s, x.ages, at);
      }
    }
  }

  lemma ReplyKeepsPast(x: Stamped, a: App)
    requires x.Aligned() && Past(x) && a.FromEcu?
    ensures Past(Step(x, a))
  {
    hide LeftOf, Word;
    var s := x.st.inFlight;
    var asked := KindLeft(s, x.ages, Rmba);
    var others := KindLeft(s, x.ages, Rdbi);
    LeftOfAges(OfKind(s, Rmba), AgesOfKind(s, x.ages, Rmba), s, x.ages, asked, x.now);
    LeftOfAges(OfKind(s, Rdbi), AgesOfKind(s, x.ages, Rdbi), s, x.ages, others, x.now);
  }

  lemma LeftOfAges(t: seq<Poll>, tAges: seq<nat>, s: seq<Poll>, sAges: seq<nat>, at: seq<nat>, now: nat)
    requires |tAges| == |t| && |sAges| == |s| && LeftOf(t, tAges, s, sAges, at)
    requires forall i :: 0 <= i < |sAges| ==> sAges[i] < now
    ensures forall i :: 0 <= i < |tAges| ==> tAges[i] < now
  {
  }

  /** Replies, rejections, DID polls and all other messages keep the order; a read keeps it iff `RepollOk`. */
  lemma StepOrder(x: Stamped, a: App)
    requires x.Aligned() && Ordered(x) && Past(x)
    ensures Past(Step(x, a))
    ensures Ordered(Step(x, a)) <==> RepollOk(x.st, a)
  {
    hide OnReply, AgesAfterReply;
    if a.FromEcu? {
      ReplyKeepsOrder(x, a);
      ReplyKeepsPast(x, a);
    } else if Asked(a).Some? {
      AskOrder(x, Asked(a).value);
    }
  }

  lemma AskOrder(x: Stamped, p: Poll)
    requires x.Aligned() && Ordered(x) && Past(x)
    ensures var s := x.st.inFlight;
      var i := Find(s, p.key);
      InOrder(Store(s, p), if i < |s| then x.ages[i := x.now] else x.ages + [x.now])
      <==> (IsRead(p) ==> forall k :: i < k < |s| ==> !IsRead(s[k]))
  {
    var s := x.st.inFlight;
    var i := Find(s, p.key);
    var t, ages := Store(s, p), if i < |s| then x.ages[i := x.now] else x.ages + [x.now];
    assert forall k :: 0 <= k < |s| && k != i ==> t[k] == s[k] && ages[k] == x.ages[k];
    assert t[i] == p && ages[i] == x.now;
    if k :| i < k < |s| && IsRead(s[k]) && IsRead(p) {
      assert IsRead(t[k]) && ages[k] < ages[i];
    }
  }

  // ------------------------------------------------------------------
  // Whole traces
  // ------------------------------------------------------------------

  /** Every read request of the trace meets the condition when it arrives. */
  predicate Orderly(st: State, apps: seq<App>)
    decreases |apps|
  {
    apps == [] || (RepollOk(st, apps[0]) && Orderly(OnApp(st, apps[0]), apps[1..]))
  }

  /** The reads stand in order after every prefix of the trace. */
  ghost predicate OrderedThroughout(x: Stamped, apps: seq<App>)
    requires x.Aligned()
  {
    forall n :: 0 <= n <= |apps| ==> Ordered(RunStamped(x, apps[..n]))
  }

  lemma ThroughoutStep(x: Stamped, apps: seq<App>)
    requires x.Aligned() && apps != []
    ensures OrderedThroughout(x, apps) <==> Ordered(x) && OrderedThroughout(Step(x, apps[0]), apps[1..])
  {
    hide Step, Ordered;
    var y := Step(x, apps[0]);
    assert RunStamped(x, apps[..0]) == x;
    forall n | 0 <= n < |apps|
      ensures RunStamped(x, apps[..n + 1]) == RunStamped(y, apps[1..][..n])
    {
      assert apps[..n + 1][1..] == apps[1..][..n] && apps[..n + 1][0] == apps[0];
    }
    if OrderedThroughout(x, apps) {
      forall n | 0 <= n <= |apps| - 1
        ensures Ordered(RunStamped(y, apps[1..][..n]))
      {
        assert Ordered(RunStamped(x, apps[..n + 1]));
      }
      assert Ordered(RunStamped(x, apps[..0]));
    }
    if Ordered(x) && OrderedThroughout(y, apps[1..]) {
      forall n | 0 <= n <= |apps|
        ensures Ordered(RunStamped(x, apps[..n]))
      {
        if n > 0 {
          assert RunStamped(x, apps[..n - 1 + 1]) == RunStamped(y, apps[1..][..n - 1]);
        }
      }
    }
  }

  lemma {:induction false} OrderlyExact(x: Stamped, apps: seq<App>)
    requires x.Aligned() && Ordered(x) && Past(x)
    ensures OrderedThroughout(x, apps) <==> Orderly(x.st, apps)
    decreases |apps|
  {
    hide Step, Ordered, Past, RepollOk;
    if apps == [] {
      assert apps[..0] == [];
    } else {
      ThroughoutStep(x, apps);
      StepOrder(x, apps[0]);
      if RepollOk(x.st, apps[0]) {
        OrderlyExact(Step(x, apps[0]), apps[1..]);
      } else {
        Unordered(Step(x, apps[0]), apps[1..]);
      }
    }
  }

  lemma Unordered(x: Stamped, apps: seq<App>)
    requires x.Aligned() && !Ordered(x)
    ensures !OrderedThroughout(x, apps)
  {
    assert apps[..0] == [] && RunStamped(x, apps[..0]) == x;
  }

  lemma BeginOrdered()
    ensures Begin.Aligned() && Ordered(Begin) && Past(Begin)
  {
  }

  /**
   Whenever the capture stops, read replies would answer the reads oldest first, exactly when
   every read request was for an address not in flight or for the newest read in flight.
   */
  lemma OldestFirstExactly(apps: seq<App>, r: App)
    requires IsReadReply(r)
    ensures (forall n :: 0 <= n <= |apps| ==> DrainsOldestFirst(RunStamped(Begin, apps[..n]), r))
      <==> Orderly(Start, apps)
  {
    hide Ordered, Orderly, DrainsOldestFirst;
    BeginOrdered();
    OrderlyExact(Begin, apps);
    forall n | 0 <= n <= |apps|
      ensures Ordered(RunStamped(Begin, apps[..n])) <==> DrainsOldestFirst(RunStamped(Begin, apps[..n]), r)
    {
      DrainExact(RunStamped(Begin, apps[..n]), r);
    }
  }

  /** Along such a trace every read reply completes the oldest read in flight, if there is one. */
  lemma OldestAnswered(apps: seq<App>, n: nat)
    requires Orderly(Start, apps) && n < |apps| && IsReadReply(apps[n])
    ensures var x, r := RunStamped(Begin, apps[..n]), apps[n];
      var i := FindKind(x.st.inFlight, Rmba);
      i < |x.st.inFlight| ==>
        && Oldest(x.st.inFlight, x.ages, i)
        && Run(Start, apps[..n + 1]).completed
        == Run(Start, apps[..n]).completed + [Answered(x.st.inFlight[i], r.ms, r.app[1..])]
  {
    hide Ordered, Orderly, Step, Oldest;
    var x, r := RunStamped(Begin, apps[..n]), apps[n];
    OldestFirstExactly(apps, r);
    assert DrainsOldestFirst(RunStamped(Begin, apps[..n]), r);
    ReadReplyTakesFirst(x, r);
    assert apps[..n + 1] == apps[..n] + [r];
    RunStampedAppend(Begin, apps[..n], [r]);
    assert [r][1..] == [] && RunStamped(x, [r]) == Step(x, r);
  }
}

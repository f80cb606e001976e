/** What reassembly guarantees on any trace at all, including corrupt and lossy ones. */
module ReassemblySafety {
  import opened Basics
  import opened IsoTp
  import opened Segmentation
  import opened Reassembly

  // ------------------------------------------------------------------
  // Independence of CAN IDs
  // ------------------------------------------------------------------

  /** The whole table after a trace over any mixture of IDs. */
  function TableAfter(st: map<int, Pending>, trace: seq<Frame>): map<int, Pending>
    decreases |trace|
  {
    if trace == [] then st
    else TableAfter(Put(st, trace[0].id, Next(Get(st, trace[0].id), trace[0].data).0), trace[1..])
  }

  /** What `feed` returns on each frame of a mixed trace, keeping only the frames of `id`. */
  function OutputsOn(st: map<int, Pending>, trace: seq<Frame>, id: int): seq<Option<Bytes>>
    decreases |trace|
  {
    if trace == [] then []
    else
      var (p', out) := Next(Get(st, trace[0].id), trace[0].data);
      var tail := OutputsOn(Put(st, trace[0].id, p'), trace[1..], id);
      if trace[0].id == id then [out] + tail else tail
  }

  /** However IDs interleave, each one behaves as if it had the reassembler to itself. */
  lemma {:induction false} Interleaving(st: map<int, Pending>, trace: seq<Frame>, id: int)
    ensures OutputsOn(st, trace, id) == Outputs(Get(st, id), OfId(id, trace))
    ensures Get(TableAfter(st, trace), id) == After(Get(st, id), OfId(id, trace))
    decreases |trace|
  {
    if trace != [] {
      var st' := Put(st, trace[0].id, Next(Get(st, trace[0].id), trace[0].data).0);
      Interleaving(st', trace[1..], id);
      if trace[0].id == id {
        assert OfId(id, trace) == [trace[0]] + OfId(id, trace[1..]);
      }
    }
  }

  // ------------------------------------------------------------------
  // Every reachable entry, every emission
  // ------------------------------------------------------------------

  /** A trace on one ID, decoded frame by frame. */
  function Decoded(fs: seq<Frame>): (ps: seq<Pdu>)
    ensures |ps| == |fs|
  {
    seq(|fs|, i requires 0 <= i < |fs| => Classify(fs[i].data))
  }

  /** The frames that are not dropped on sight. */
  function Live(ps: seq<Pdu>): seq<Pdu> {
    if ps == [] then []
    else
      var rest := Live(ps[..|ps| - 1]);
      if ps[|ps| - 1].Ignored? then rest else rest + [ps[|ps| - 1]]
  }

  /** Consecutive Frames numbered 1, 2, ... 15, 0, 1, ... with none missing. */
  predicate GapFree(cfs: seq<Pdu>) {
    cfs != [] ==>
      var last := cfs[|cfs| - 1];
      last.Consecutive? && last.sn == |cfs| % 16 && GapFree(cfs[..|cfs| - 1])
  }

  function Bodies(cfs: seq<Pdu>): Bytes
    requires GapFree(cfs)
  {
    if cfs == [] then [] else Bodies(cfs[..|cfs| - 1]) + cfs[|cfs| - 1].body
  }

  /** The frame at `j` opens a message that the frames after it continue without a gap. */
  predicate Opens(ps: seq<Pdu>, j: int) {
    0 <= j < |ps| && ps[j].First? && GapFree(Live(ps[j + 1..]))
  }

  /** Bytes gathered since the First Frame at `j`. */
  function Gathered(ps: seq<Pdu>, j: int): Bytes
    requires Opens(ps, j)
  {
    ps[j].chunk + Bodies(Live(ps[j + 1..]))
  }

  /** `p` is what the First Frame at `j` and its gap-free continuation have built. */
  predicate BuiltFrom(p: Pending, ps: seq<Pdu>, j: int) {
    && Opens(ps, j)
    && p.expected == ps[j].total
    && p.payload == Gathered(ps, j)
    && p.nextSeq == (1 + |Live(ps[j + 1..])|) % 16
  }

  lemma LiveSnoc(ps: seq<Pdu>, pdu: Pdu, j: nat)
    requires j < |ps|
    ensures (ps + [pdu])[j] == ps[j]
    ensures Live((ps + [pdu])[j + 1..]) == Live(ps[j + 1..]) + if pdu.Ignored? then [] else [pdu]
  {
    var a := ps[j + 1..] + [pdu];
    assert (ps + [pdu])[j + 1..] == a;
    assert a[..|a| - 1] == ps[j + 1..];
  }

  lemma GapFreeSnoc(cfs: seq<Pdu>, pdu: Pdu)
    requires GapFree(cfs) && pdu.Consecutive? && pdu.sn == (1 + |cfs|) % 16
    ensures GapFree(cfs + [pdu]) && Bodies(cfs + [pdu]) == Bodies(cfs) + pdu.body
  {
    var all := cfs + [pdu];
    assert |all| == |cfs| + 1 && all[|cfs|] == pdu && all[..|cfs|] == cfs;
  }

  lemma Nibbles(n: nat)
    ensures (n % 16 + 1) % 16 == (n + 1) % 16
  {
  }

  lemma FreshlyOpened(ps: seq<Pdu>, pdu: Pdu)
    requires pdu.First?
    ensures Opens(ps + [pdu], |ps|) && Gathered(ps + [pdu], |ps|) == pdu.chunk
    ensures BuiltFrom(Pending(pdu.total, pdu.chunk, 1), ps + [pdu], |ps|)
  {
    assert (ps + [pdu])[|ps| + 1..] == [];
  }

  lemma StillBuilt(p: Pending, ps: seq<Pdu>, j: int)
    requires BuiltFrom(p, ps, j)
    ensures BuiltFrom(p, ps + [Ignored], j)
  {
    LiveSnoc(ps, Ignored, j);
    assert Live((ps + [Ignored])[j + 1..]) == Live(ps[j + 1..]);
  }

  /** One more in-sequence Consecutive Frame after the First Frame at `j`. */
  lemma OpensSnoc(ps: seq<Pdu>, pdu: Pdu, j: int)
    requires Opens(ps, j) && pdu.Consecutive? && pdu.sn == (1 + |Live(ps[j + 1..])|) % 16
    ensures Live((ps + [pdu])[j + 1..]) == Live(ps[j + 1..]) + [pdu]
    ensures Opens(ps + [pdu], j) && Gathered(ps + [pdu], j) == Gathered(ps, j) + pdu.body
  {
    LiveSnoc(ps, pdu, j);
    var cfs := Live(ps[j + 1..]);
    GapFreeSnoc(cfs, pdu);
    assert ps[j].chunk + (Bodies(cfs) + pdu.body) == ps[j].chunk + Bodies(cfs) + pdu.body;
  }

  /** One accepted Consecutive Frame, seen from the First Frame that opened the message. */
  lemma Continued(p: Pending, ps: seq<Pdu>, pdu: Pdu, j: int)
    requires BuiltFrom(p, ps, j) && pdu.Consecutive? && pdu.sn == p.nextSeq
    ensures Opens(ps + [pdu], j) && Gathered(ps + [pdu], j) == p.payload + pdu.body
    ensures BuiltFrom(Pending(p.expected, p.payload + pdu.body, (p.nextSeq + 1) % 16), ps + [pdu], j)
  {
    OpensSnoc(ps, pdu, j);
    Nibbles(1 + |Live(ps[j + 1..])|);
  }

  /** Where an emitted message comes from: one Single Frame, or one First Frame and a gap-free run. */
  ghost predicate Explained(ps: seq<Pdu>, m: Bytes) {
    ps != [] && m != [] &&
    (ps[|ps| - 1] == Single(m) || exists j :: Opens(ps, j) && ps[j].total == |m| && m <= Gathered(ps, j))
  }

  /** Everything known about an entry and the frames that led to it. */
  ghost predicate Provenance(p: Option<Pending>, ps: seq<Pdu>) {
    Sound(p) && (p.Some? ==> exists j :: BuiltFrom(p.value, ps, j))
  }

  /** An accepted frame either leaves room or completes the message. */
  lemma ReceiveInSequence(p: Pending, pdu: Pdu)
    requires InFlight(p) && pdu.Consecutive? && pdu.sn == p.nextSeq
    ensures var longer := p.payload + pdu.body;
      Receive(Some(p), pdu)
      == if |longer| < p.expected then (Some(Pending(p.expected, longer, (p.nextSeq + 1) % 16)), None)
         else (None, Some(longer[..p.expected]))
  {
    var room := p.expected - |p.payload|;
    if |pdu.body| < room {
      assert Clip(pdu.body, room) == pdu.body;
    } else {
      assert (p.payload + Clip(pdu.body, room))[..p.expected] == (p.payload + pdu.body)[..p.expected];
    }
  }

  lemma ConsecutiveStep(p: Pending, ps: seq<Pdu>, pdu: Pdu)
    requires Provenance(Some(p), ps) && pdu.Consecutive? && pdu.sn == p.nextSeq
    ensures Provenance(Receive(Some(p), pdu).0, ps + [pdu])
    ensures Receive(Some(p), pdu).1.Some? ==> Explained(ps + [pdu], Receive(Some(p), pdu).1.value)
  {
    hide Receive, Gathered, GapFree;
    var j :| BuiltFrom(p, ps, j);
    Continued(p, ps, pdu, j);
    ReceiveInSequence(p, pdu);
    assert (ps + [pdu])[j] == ps[j];
    var longer := p.payload + pdu.body;
    if |longer| < p.expected {
      assert BuiltFrom(Pending(p.expected, longer, (p.nextSeq + 1) % 16), ps + [pdu], j);
    } else {
      assert Opens(ps + [pdu], j) && longer[..p.expected] <= Gathered(ps + [pdu], j);
    }
  }

  /** One frame carries provenance over, and explains what it emits. */
  lemma ProvenanceStep(p: Option<Pending>, ps: seq<Pdu>, pdu: Pdu)
    requires Provenance(p, ps) && WellFormed(pdu)
    ensures Provenance(Receive(p, pdu).0, ps + [pdu])
    ensures Receive(p, pdu).1.Some? ==> Explained(ps + [pdu], Receive(p, pdu).1.value)
  {
    match pdu
    case Ignored =>
      if p.Some? {
        var j :| BuiltFrom(p.value, ps, j);
        StillBuilt(p.value, ps, j);
      }
    case Single(_) =>
    case First(_, _) => FreshlyOpened(ps, pdu);
    case Consecutive(sn, _) =>
      if p.Some? && sn == p.value.nextSeq {
        ConsecutiveStep(p.value, ps, pdu);
      }
  }

  /**
   In every reachable state an entry is incomplete, its sequence nibble is in 0..15, and it
   consists of one First Frame's bytes followed by those of a gap-free run.
   */
  lemma {:induction false} PendingProvenance(fs: seq<Frame>)
    ensures Provenance(After(None, fs), Decoded(fs))
    decreases |fs|
  {
    if fs != [] {
      var pre, f := fs[..|fs| - 1], fs[|fs| - 1];
      assert fs == pre + [f];
      PendingProvenance(pre);
      AfterAppend(None, pre, [f]);
      ClassifyWellFormed(f.data);
      ProvenanceStep(After(None, pre), Decoded(pre), Classify(f.data));
      assert Decoded(fs) == Decoded(pre) + [Classify(f.data)];
    }
  }

  lemma OutputAt(p: Option<Pending>, fs: seq<Frame>, i: nat)
    requires i < |fs|
    ensures Outputs(p, fs)[i] == Next(After(p, fs[..i]), fs[i].data).1
    ensures Decoded(fs[..i + 1]) == Decoded(fs[..i]) + [Classify(fs[i].data)]
  {
    OutputsAppend(p, fs[..i], fs[i..]);
    assert fs == fs[..i] + fs[i..];
  }

  /**
   Soundness on arbitrary traces: whatever `feed` returns has exactly its declared length
   and is explained by the frames up to that point.
   */
  lemma EmissionProvenance(fs: seq<Frame>, i: nat)
    requires i < |fs| && Outputs(None, fs)[i].Some?
    ensures Explained(Decoded(fs[..i + 1]), Outputs(None, fs)[i].value)
  {
    OutputAt(None, fs, i);
    PendingProvenance(fs[..i]);
    ClassifyWellFormed(fs[i].data);
    ProvenanceStep(After(None, fs[..i]), Decoded(fs[..i]), Classify(fs[i].data));
  }

  // ------------------------------------------------------------------
  // Lost frames
  // ------------------------------------------------------------------

  /** Consecutive Frames that carry the numbers `nums`, each modulo 16. */
  predicate Numbered(fs: seq<Frame>, nums: seq<nat>) {
    && |fs| == |nums|
    && forall i :: 0 <= i < |fs| ==> Classify(fs[i].data).Consecutive? && Classify(fs[i].data).sn == nums[i] % 16
  }

  /** With nothing in flight, Consecutive Frames alone produce nothing. */
  lemma {:induction false} OrphansIgnored(fs: seq<Frame>, nums: seq<nat>)
    requires Numbered(fs, nums)
    ensures After(None, fs) == None && Outputs(None, fs) == seq(|fs|, _ => None)
  {
    if fs != [] {
      OrphansIgnored(fs[1..], nums[1..]);
      assert Next(None, fs[0].data) == (None, None);
    }
  }

  /** An in-sequence frame that cannot fill the message. */
  lemma StarvedStep(p: Pending, d: Bytes, left: nat)
    requires Classify(d).Consecutive? && Classify(d).sn == p.nextSeq
    requires |p.payload| + 7 * (left + 1) < p.expected
    ensures var (p', out) := Next(Some(p), d);
      && out == None && p'.Some? && p'.value.nextSeq == (p.nextSeq + 1) % 16
      && |p'.value.payload| + 7 * left < p'.value.expected
  {
  }

  lemma WrongNibbleDrops(p: Pending, d: Bytes)
    requires Classify(d).Consecutive? && Classify(d).sn != p.nextSeq
    ensures Next(Some(p), d) == (None, None)
  {
  }

  /** Some frame's number is not the one expected when counting on from `c`. */
  ghost predicate OutOfStep(nums: seq<nat>, c: nat) {
    exists i :: 0 <= i < |nums| && nums[i] % 16 != (c + i) % 16
  }

  lemma OutOfStepHead(nums: seq<nat>, c: nat)
    requires nums != []
    ensures OutOfStep(nums, c) <==> nums[0] % 16 != c % 16 || OutOfStep(nums[1..], c + 1)
  {
    if OutOfStep(nums[1..], c + 1) {
      var i :| 0 <= i < |nums| - 1 && nums[1..][i] % 16 != (c + 1 + i) % 16;
      assert nums[i + 1] % 16 != (c + (i + 1)) % 16;
    }
    if nums[0] % 16 != c % 16 {
      assert nums[0] % 16 != (c + 0) % 16;
    }
    if i :| 0 <= i < |nums| && nums[i] % 16 != (c + i) % 16 {
      assert i > 0 ==> nums[1..][i - 1] % 16 != (c + 1 + (i - 1)) % 16;
    }
  }

  lemma NextNibble(c: nat)
    ensures (c % 16 + 1) % 16 == (c + 1) % 16
  {
  }

  /** Frames too few to fill the message emit nothing; the entry is dropped at the first one out of step. */
  lemma {:induction false} Starved(q: Pending, fs: seq<Frame>, nums: seq<nat>, c: nat)
    requires Numbered(fs, nums) && q.nextSeq == c % 16 && |q.payload| + 7 * |fs| < q.expected
    ensures Outputs(Some(q), fs) == seq(|fs|, _ => None)
    ensures After(Some(q), fs).None? <==> OutOfStep(nums, c)
    decreases |fs|
  {
    hide Next, Classify, OutOfStep;
    if fs == [] {
      NoneOutOfStep(c);
    } else {
      OutOfStepHead(nums, c);
      if nums[0] % 16 == c % 16 {
        StarvedStep(q, fs[0].data, |fs| - 1);
        NextNibble(c);
        Starved(Next(Some(q), fs[0].data).0.value, fs[1..], nums[1..], c + 1);
      } else {
        WrongNibbleDrops(q, fs[0].data);
        OrphansIgnored(fs[1..], nums[1..]);
      }
    }
  }

  lemma NoneOutOfStep(c: nat)
    ensures !OutOfStep([], c)
  {
  }

  /** The frames that survive, after the First Frame: some are missing. */
  predicate Survivors(kept: seq<nat>, n: nat) {
    && (forall i :: 0 <= i < |kept| ==> 1 <= kept[i] < n)
    && (forall i, k :: 0 <= i < k < |kept| ==> kept[i] < kept[k])
    && |kept| < n - 1
  }

  function Pick(fs: seq<Frame>, kept: seq<nat>): (r: seq<Frame>)
    requires forall i :: 0 <= i < |kept| ==> kept[i] < |fs|
    ensures |r| == |kept| && forall i :: 0 <= i < |kept| ==> r[i] == fs[kept[i]]
  {
    seq(|kept|, i requires 0 <= i < |kept| => fs[kept[i]])
  }

  lemma PickNumbered(fs: seq<Frame>, m: Bytes, kept: seq<nat>)
    requires IsMultiFrame(fs, m) && Survivors(kept, |fs|)
    ensures Numbered(Pick(fs, kept), kept)
  {
    forall i | 0 <= i < |kept|
      ensures Classify(fs[kept[i]].data).Consecutive? && Classify(fs[kept[i]].data).sn == kept[i] % 16
    {
      assert IsConsecutive(fs[kept[i]].data, kept[i], m[FirstSize(fs[0].data, m)..]);
      ClassifyConsecutive(fs[kept[i]].data, kept[i], m[FirstSize(fs[0].data, m)..]);
    }
  }

  /** The frames lost before the `i`-th survivor. */
  function LostBefore(kept: seq<nat>, i: nat): int
    requires i < |kept|
  {
    kept[i] - 1 - i
  }

  lemma {:induction false} LostBeforeCounts(kept: seq<nat>, n: nat, i: nat)
    requires Survivors(kept, n) && i < |kept|
    ensures LostBefore(kept, i) >= 0
  {
    if i > 0 {
      LostBeforeCounts(kept, n, i - 1);
    }
  }

  lemma SameNibble(a: nat, b: nat)
    requires a <= b
    ensures a % 16 == b % 16 <==> (b - a) % 16 == 0
  {
    var q, r := (b - a) / 16, (b - a) % 16;
    assert b == a + 16 * q + r;
  }

  /** The frames left cannot fill the message. */
  lemma LossLeavesRoom(fs: seq<Frame>, m: Bytes, left: nat)
    requires IsMultiFrame(fs, m) && left < |fs| - 1
    ensures Offset(fs, m, 1) + 7 * left < |m|
  {
    var k := FirstSize(fs[0].data, m);
    assert Offset(fs, m, 1) == k;
    assert Offset(fs, m, |fs| - 1) == k + 7 * (|fs| - 2);
  }

  /**
   Losing any Consecutive Frames of a message, wherever they stand, never yields a message, right
   or wrong. The loss is noticed, and the entry dropped, exactly when the number of frames lost
   before some survivor is not a multiple of 16; otherwise the stale entry stays in flight.
   */
  lemma LostFramesNeverEmit(p: Option<Pending>, fs: seq<Frame>, m: Bytes, kept: seq<nat>)
    requires IsMultiFrame(fs, m) && Survivors(kept, |fs|)
    ensures var seen := [fs[0]] + Pick(fs, kept);
      && Outputs(p, seen) == seq(|seen|, _ => None)
      && (After(p, seen).None? <==> exists i :: 0 <= i < |kept| && LostBefore(kept, i) % 16 != 0)
  {
    hide Numbered, Next;
    var q := Pending(|m|, m[..Offset(fs, m, 1)], 1);
    var tail := Pick(fs, kept);
    PrefixState(p, fs, m, 1);
    assert fs[..1] == [fs[0]];
    AfterAppend(p, [fs[0]], tail);
    OutputsAppend(p, [fs[0]], tail);
    PickNumbered(fs, m, kept);
    LossLeavesRoom(fs, m, |kept|);
    Starved(q, tail, kept, 1);
    StepIsLoss(kept, |fs|);
  }

  /** A survivor is out of step exactly when the frames lost before it are no multiple of 16. */
  lemma StepIsLoss(kept: seq<nat>, n: nat)
    requires Survivors(kept, n)
    ensures OutOfStep(kept, 1) <==> exists i :: 0 <= i < |kept| && LostBefore(kept, i) % 16 != 0
  {
    forall i | 0 <= i < |kept|
      ensures kept[i] % 16 != (1 + i) % 16 <==> LostBefore(kept, i) % 16 != 0
    {
      LostBeforeCounts(kept, n, i);
      SameNibble(1 + i, kept[i]);
    }
  }
}

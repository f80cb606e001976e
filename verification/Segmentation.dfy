/** What a sender puts on the wire for one message, and that reassembly inverts it. */
module Segmentation {
  import opened Basics
  import opened IsoTp

  // ------------------------------------------------------------------
  // Segmentation, as a relation: padding and the First Frame's size are free
  // ------------------------------------------------------------------

  predicate IsSingle(d: Bytes, m: Bytes) {
    1 <= |m| < 16 && |d| >= 1 + |m| && d[0] == |m| && d[1..1 + |m|] == m
  }

  /** Header bytes of the First Frame form in use; 0 when `d` announces no `m`. */
  function HeaderSize(d: Bytes, m: Bytes): nat {
    if 1 <= |m| < 4096 && |d| >= 2 && d[0] == 16 + |m| / 256 && d[1] == |m| % 256 then 2
    else if 1 <= |m| < Pow256(4) && |d| >= 6 && d[0] == 16 && d[1] == 0 && d[2..6] == ToBigEndian(|m|, 4) then 6
    else 0
  }

  /** How much of `m` the First Frame itself carries. */
  function FirstSize(d: Bytes, m: Bytes): nat
    requires HeaderSize(d, m) != 0
  {
    Min(|d| - HeaderSize(d, m), |m|)
  }

  predicate IsFirst(d: Bytes, m: Bytes) {
    HeaderSize(d, m) != 0 &&
    d[HeaderSize(d, m)..HeaderSize(d, m) + FirstSize(d, m)] == m[..FirstSize(d, m)]
  }

  /** `d` is the `i`-th Consecutive Frame (from 1) for `rest`: 7 bytes, or what is left plus padding. */
  predicate IsConsecutive(d: Bytes, i: nat, rest: Bytes) {
    i >= 1 && 7 * (i - 1) < |rest| &&
    var n := Min(7, |rest| - 7 * (i - 1));
    |d| >= 1 + n && d[0] == 32 + i % 16 && d[1..1 + n] == rest[7 * (i - 1)..7 * (i - 1) + n]
  }

  predicate IsMultiFrame(fs: seq<Frame>, m: Bytes) {
    |fs| >= 1 && IsFirst(fs[0].data, m) &&
    var rest := m[FirstSize(fs[0].data, m)..];
    |fs| - 1 == (|rest| + 6) / 7 &&
    forall i :: 1 <= i < |fs| ==> IsConsecutive(fs[i].data, i, rest)
  }

  /** Bytes of `m` carried by the frames before the `i`-th. */
  function Offset(fs: seq<Frame>, m: Bytes, i: nat): (o: int)
    requires IsMultiFrame(fs, m) && 1 <= i < |fs|
    ensures 0 <= o < |m|
    ensures i == |fs| - 1 <==> o + 7 >= |m|
  {
    assert IsConsecutive(fs[i].data, i, m[FirstSize(fs[0].data, m)..]);
    FirstSize(fs[0].data, m) + 7 * (i - 1)
  }

  predicate IsSegmentation(fs: seq<Frame>, m: Bytes) {
    (|fs| == 1 && IsSingle(fs[0].data, m)) || IsMultiFrame(fs, m)
  }

  // ------------------------------------------------------------------
  // Reassembly inverts segmentation
  // ------------------------------------------------------------------

  lemma FirstFrameStarts(p: Option<Pending>, d: Bytes, m: Bytes)
    requires IsFirst(d, m)
    ensures Next(p, d) == Settle(Pending(|m|, m[..FirstSize(d, m)], 1))
  {
    BigEndianRoundTrip(|m|, 4);
    var h := HeaderSize(d, m);
    assert Clip(d[h..], |m|) == d[h..h + FirstSize(d, m)];
    if h == 6 && ShortLength(d) > 0 {
      assert false;
    }
  }

  lemma ClassifyConsecutive(d: Bytes, i: nat, rest: Bytes)
    requires IsConsecutive(d, i, rest)
    ensures Classify(d) == Consecutive(i % 16, Clip(d[1..], 7))
  {
  }

  lemma CarriedSlice(d: Bytes, i: nat, m: Bytes, k: nat, c: nat)
    requires k <= |m| && IsConsecutive(d, i, m[k..]) && c == k + 7 * (i - 1)
    ensures c < |m| && Clip(Clip(d[1..], 7), |m| - c) == m[c..Min(c + 7, |m|)]
  {
    var n := Min(7, |m| - c);
    assert m[k..][7 * (i - 1)..7 * (i - 1) + n] == m[c..c + n];
    ClipClip(d[1..], 7, |m| - c);
    assert Clip(d[1..], n) == d[1..1 + n];
  }

  /** One in-sequence Consecutive Frame adds its slice of the message, here the one at `c`. */
  lemma ConsecutiveFrameExtends(d: Bytes, i: nat, m: Bytes, k: nat, c: nat)
    requires k <= |m| && IsConsecutive(d, i, m[k..]) && c == k + 7 * (i - 1)
    ensures c < |m|
    ensures Next(Some(Pending(|m|, m[..c], i % 16)), d) == Settle(Pending(|m|, m[..Min(c + 7, |m|)], (i + 1) % 16))
  {
    hide Classify, Clip, IsConsecutive, Settle;
    CarriedSlice(d, i, m, k, c);
    ClassifyConsecutive(d, i, m[k..]);
    assert m[..c] + m[c..Min(c + 7, |m|)] == m[..Min(c + 7, |m|)];
  }

  /** The state after the First Frame and `a - 1` Consecutive Frames, while the message is incomplete. */
  lemma {:induction false} PrefixState(p: Option<Pending>, fs: seq<Frame>, m: Bytes, a: nat)
    requires IsMultiFrame(fs, m) && 1 <= a < |fs|
    ensures After(p, fs[..a]) == Some(Pending(|m|, m[..Offset(fs, m, a)], a % 16))
    ensures Outputs(p, fs[..a]) == seq(a, _ => None)
  {
    hide Next;
    if a == 1 {
      FirstFrameStarts(p, fs[0].data, m);
      assert fs[..1] == [fs[0]];
      assert Offset(fs, m, a) == FirstSize(fs[0].data, m);
    } else {
      PrefixState(p, fs, m, a - 1);
      AfterAppend(p, fs[..a - 1], [fs[a - 1]]);
      OutputsAppend(p, fs[..a - 1], [fs[a - 1]]);
      assert fs[..a] == fs[..a - 1] + [fs[a - 1]];
      StepAt(fs, m, a - 1);
    }
  }

  /** `ConsecutiveFrameExtends` for the `i`-th frame of a segmentation. */
  lemma StepAt(fs: seq<Frame>, m: Bytes, i: nat)
    requires IsMultiFrame(fs, m) && 1 <= i < |fs|
    ensures Next(Some(Pending(|m|, m[..Offset(fs, m, i)], i % 16)), fs[i].data) ==
      if i == |fs| - 1 then (None, Some(m))
      else (Some(Pending(|m|, m[..Offset(fs, m, i + 1)], (i + 1) % 16)), None)
  {
    ConsecutiveFrameExtends(fs[i].data, i, m, FirstSize(fs[0].data, m), Offset(fs, m, i));
    if i == |fs| - 1 {
      assert m[..|m|] == m;
    } else {
      assert Offset(fs, m, i + 1) == Offset(fs, m, i) + 7;
    }
  }

  /**
   From any state of the table, feeding a segmentation of `m` returns nothing until the
   last frame, then exactly `m`, and leaves nothing in flight.
   */
  lemma SegmentationRoundTrip(p: Option<Pending>, fs: seq<Frame>, m: Bytes)
    requires IsSegmentation(fs, m)
    ensures Outputs(p, fs) == seq(|fs| - 1, _ => None) + [Some(m)]
    ensures After(p, fs) == None
  {
    if |fs| == 1 {
      if !IsSingle(fs[0].data, m) {
        FirstFrameStarts(p, fs[0].data, m);
        assert m[..|m|] == m;
      }
      assert Outputs(p, fs) == [Next(p, fs[0].data).1];
    } else {
      var last := |fs| - 1;
      PrefixState(p, fs, m, last);
      StepAt(fs, m, last);
      AfterAppend(p, fs[..last], [fs[last]]);
      OutputsAppend(p, fs[..last], [fs[last]]);
      assert fs == fs[..last] + [fs[last]];
    }
  }

  /** Outputs that are silent until the last frame amount to one message. */
  lemma {:induction false} SilentThenOne(p: Option<Pending>, fs: seq<Frame>, m: Bytes)
    requires |fs| >= 1 && Outputs(p, fs) == seq(|fs| - 1, _ => None) + [Some(m)]
    ensures Messages(p, fs) == [Message(fs[|fs| - 1].ms, m)]
    decreases |fs|
  {
    var (p', out) := Next(p, fs[0].data);
    assert out == Outputs(p, fs)[0];
    if |fs| > 1 {
      assert Outputs(p', fs[1..]) == Outputs(p, fs)[1..] == seq(|fs| - 2, _ => None) + [Some(m)];
      SilentThenOne(p', fs[1..], m);
    } else {
      assert Messages(p', fs[1..]) == [];
    }
  }

  /** A list of messages, each completed at its own time, and the frames that carry it. */
  predicate Carries(fs: seq<Frame>, parts: seq<seq<Frame>>, ms: seq<Message>) {
    && fs == Flatten(parts)
    && |parts| == |ms|
    && forall i :: 0 <= i < |ms| ==>
         IsSegmentation(parts[i], ms[i].app) && ms[i].ms == parts[i][|parts[i]| - 1].ms
  }

  lemma {:induction false} MessagesRoundTrip(
    p: Option<Pending>, fs: seq<Frame>, parts: seq<seq<Frame>>, ms: seq<Message>)
    requires Carries(fs, parts, ms)
    ensures Messages(p, fs) == ms
    decreases |parts|
  {
    if parts != [] {
      var first := parts[0];
      assert IsSegmentation(first, ms[0].app);
      SegmentationRoundTrip(p, first, ms[0].app);
      SilentThenOne(p, first, ms[0].app);
      MessagesAppend(p, first, Flatten(parts[1..]));
      MessagesRoundTrip(None, Flatten(parts[1..]), parts[1..], ms[1..]);
      assert ms == [ms[0]] + ms[1..];
    }
  }

  // ------------------------------------------------------------------
  // Classic 8-byte CAN: every length from 1 to 2^32 - 1 has a segmentation
  // ------------------------------------------------------------------

  function Pad(d: Bytes, fill: Byte): (r: Bytes)
    ensures d <= r && |r| >= 8
    decreases 8 - |d|
  {
    if |d| >= 8 then d else Pad(d + [fill], fill)
  }

  function ClassicFirst(m: Bytes): (d: Bytes)
    requires 7 < |m| < Pow256(4)
    ensures |d| == 8 && IsFirst(d, m)
  {
    if |m| < 4096 then
      var hi: int := 16 + |m| / 256;
      var lo: int := |m| % 256;
      [hi, lo] + m[..6]
    else
      var esc: Bytes := [16, 0] + ToBigEndian(|m|, 4);
      assert (esc + m[..2])[2..6] == ToBigEndian(|m|, 4);
      assert (esc + m[..2])[6..8] == m[..2];
      esc + m[..2]
  }

  function ClassicConsecutive(rest: Bytes, i: nat, fill: Byte): (d: Bytes)
    requires i >= 1 && 7 * (i - 1) < |rest|
    ensures IsConsecutive(d, i, rest)
  {
    var n := Min(7, |rest| - 7 * (i - 1));
    var sn: int := 32 + i % 16;
    Pad([sn] + rest[7 * (i - 1)..7 * (i - 1) + n], fill)
  }

  function ClassicSegments(m: Bytes, id: int, ms: int, fill: Byte): (fs: seq<Frame>)
    requires 1 <= |m| < Pow256(4)
    ensures IsSegmentation(fs, m)
    ensures forall f <- fs :: f.id == id
  {
    if |m| <= 7 then
      var d: Bytes := Pad([|m| as int] + m, fill);
      assert d[1..1 + |m|] == ([|m| as int] + m)[1..1 + |m|];
      [Frame(ms, id, d)]
    else
      var first := ClassicFirst(m);
      var rest := m[FirstSize(first, m)..];
      var fs := seq(1 + (|rest| + 6) / 7, i requires 0 <= i < 1 + (|rest| + 6) / 7 =>
                  Frame(ms, id, if i == 0 then first else ClassicConsecutive(rest, i, fill)));
      fs
  }
}

/** Arrays of fixed-width big-endian integers inside a byte image. */
module Fields {
  import opened Basics

  /** `blob` holds `content` at `offset`. */
  predicate Holds(blob: Bytes, offset: int, content: Bytes) {
    0 <= offset && offset + |content| <= |blob| && blob[offset..offset + |content|] == content
  }

  /** `count` unsigned integers of `width` bytes from `offset` on. */
  function Unpack(blob: Bytes, offset: nat, width: nat, count: nat): (r: seq<nat>)
    requires offset + width * count <= |blob|
    ensures |r| == count
    decreases count
  {
    if count == 0 then []
    else
      Peel(width, count);
      [FromBigEndian(blob[offset..offset + width])] + Unpack(blob, offset + width, width, count - 1)
  }

  lemma Peel(width: nat, count: nat)
    requires count > 0
    ensures width * count == width + width * (count - 1)
    ensures width <= width * count
  {
  }

  /** The integers written one after the other. */
  function Pack(values: seq<nat>, width: nat): (r: Bytes)
    ensures |r| == width * |values|
  {
    if values == [] then []
    else
      Peel(width, |values|);
      ToBigEndian(values[0], width) + Pack(values[1..], width)
  }

  predicate AllBelow(values: seq<nat>, bound: nat) {
    forall i :: 0 <= i < |values| ==> values[i] < bound
  }

  lemma {:induction false} FromBigEndianBound(s: Bytes)
    ensures FromBigEndian(s) < Pow256(|s|)
  {
    if s != [] {
      FromBigEndianBound(s[..|s| - 1]);
    }
  }

  /** Reading and writing back restores the bytes. */
  lemma {:induction false} WriteRead(s: Bytes)
    ensures ToBigEndian(FromBigEndian(s), |s|) == s
  {
    if s != [] {
      var front, last := s[..|s| - 1], s[|s| - 1];
      WriteRead(front);
      assert FromBigEndian(s) / 256 == FromBigEndian(front) && FromBigEndian(s) % 256 == last;
      assert s == front + [last];
    }
  }

  /** A field reads as `n` exactly when it holds the encoding of `n`. */
  lemma FieldExact(s: Bytes, n: nat)
    ensures FromBigEndian(s) == n <==> n < Pow256(|s|) && s == ToBigEndian(n, |s|)
  {
    FromBigEndianBound(s);
    WriteRead(s);
    if n < Pow256(|s|) {
      BigEndianRoundTrip(n, |s|);
    }
  }

  lemma HoldsSplit(blob: Bytes, offset: int, a: Bytes, b: Bytes)
    ensures Holds(blob, offset, a + b) <==> Holds(blob, offset, a) && Holds(blob, offset + |a|, b)
  {
    var c := a + b;
    if 0 <= offset && offset + |c| <= |blob| {
      var s := blob[offset..offset + |c|];
      assert s == blob[offset..offset + |a|] + blob[offset + |a|..offset + |c|];
      assert s[..|a|] == blob[offset..offset + |a|] && s[|a|..] == blob[offset + |a|..offset + |c|];
      assert c[..|a|] == a && c[|a|..] == b;
    }
  }

  /** Unpacking gives `values` exactly when their encodings stand there. */
  lemma {:induction false} UnpackExact(blob: Bytes, offset: nat, width: nat, values: seq<nat>)
    requires offset + width * |values| <= |blob|
    ensures Unpack(blob, offset, width, |values|) == values
      <==> AllBelow(values, Pow256(width)) && Holds(blob, offset, Pack(values, width))
    decreases |values|
  {
    hide FromBigEndian, ToBigEndian, AllBelow, Pow256;
    if values == [] {
      NoneBelow(Pow256(width));
    } else {
      Peel(width, |values|);
      var head, rest := values[0], values[1..];
      UnpackExact(blob, offset + width, width, rest);
      FieldExact(blob[offset..offset + width], head);
      HoldsSplit(blob, offset, ToBigEndian(head, width), Pack(rest, width));
      assert values == [head] + rest;
      var u := Unpack(blob, offset, width, |values|);
      assert u == values <==> u[0] == head && u[1..] == rest;
      AllBelowStep(values, Pow256(width));
    }
  }

  lemma NoneBelow(bound: nat)
    ensures AllBelow([], bound)
  {
  }

  lemma AllBelowStep(values: seq<nat>, bound: nat)
    requires values != []
    ensures AllBelow(values, bound) <==> values[0] < bound && AllBelow(values[1..], bound)
  {
    assert forall i :: 1 <= i < |values| ==> values[i] == values[1..][i - 1];
    assert forall i :: 0 <= i < |values| - 1 ==> values[1..][i] == values[i + 1];
  }

  // ------------------------------------------------------------------
  // Signed 16-bit values
  // ------------------------------------------------------------------

  function Signed16(n: nat): int {
    if n < 0x8000 then n else n - 0x1_0000
  }

  function Unsigned16(v: int): (n: nat)
    ensures n < 0x1_0000
  {
    v % 0x1_0000
  }

  function AllSigned16(ns: seq<nat>): (r: seq<int>)
    ensures |r| == |ns|
  {
    if ns == [] then [] else [Signed16(ns[0])] + AllSigned16(ns[1..])
  }

  function AllUnsigned16(vs: seq<int>): (r: seq<nat>)
    ensures |r| == |vs|
  {
    if vs == [] then [] else [Unsigned16(vs[0])] + AllUnsigned16(vs[1..])
  }

  predicate InS16(vs: seq<int>) {
    forall i :: 0 <= i < |vs| ==> -0x8000 <= vs[i] < 0x8000
  }

  lemma {:induction false} SignedExact(ns: seq<nat>, vs: seq<int>)
    requires AllBelow(ns, 0x1_0000)
    ensures AllSigned16(ns) == vs <==> InS16(vs) && ns == AllUnsigned16(vs)
  {
    if |ns| != |vs| {
    } else if ns != [] {
      AllBelowStep(ns, 0x1_0000);
      SignedExact(ns[1..], vs[1..]);
      assert Signed16(ns[0]) == vs[0] <==> -0x8000 <= vs[0] < 0x8000 && ns[0] == Unsigned16(vs[0]);
      assert ns == [ns[0]] + ns[1..] && vs == [vs[0]] + vs[1..];
      assert InS16(vs) <==> -0x8000 <= vs[0] < 0x8000 && InS16(vs[1..]) by {
        assert forall i :: 1 <= i < |vs| ==> vs[i] == vs[1..][i - 1];
        assert forall i :: 0 <= i < |vs| - 1 ==> vs[1..][i] == vs[i + 1];
      }
      assert AllSigned16(ns)[1..] == AllSigned16(ns[1..]);
      assert AllUnsigned16(vs)[1..] == AllUnsigned16(vs[1..]);
    }
  }

  lemma {:induction false} UnsignedBelow(vs: seq<int>)
    ensures AllBelow(AllUnsigned16(vs), 0x1_0000)
  {
    if vs != [] {
      UnsignedBelow(vs[1..]);
      AllBelowStep(AllUnsigned16(vs), 0x1_0000);
    }
  }
}

/** Ordered, keyed merging of definition elements: `_overlay_table` and the dictionaries it uses. */
module Overlay {
  // A Python dict built by a comprehension keeps, per key, the place of the first entry and the
  // value of the last; `Collapse` is that dict as a sequence.

  import opened Basics

  datatype Element = Element(tag: string, attrs: map<string, string>, text: Option<string>, children: seq<Element>)

  // ------------------------------------------------------------------
  // Text helpers
  // ------------------------------------------------------------------

  /** The ASCII characters `str.strip` removes. */
  predicate IsSpace(c: char) {
    '\t' <= c <= '\r' || '\U{1C}' <= c <= ' '
  }

  /** `str.strip()`. */
  function Strip(s: string): string {
    if s == [] then []
    else if IsSpace(s[0]) then Strip(s[1..])
    else if IsSpace(s[|s| - 1]) then Strip(s[..|s| - 1])
    else s
  }

  lemma SpaceExact(c: char)
    ensures IsSpace(c) <==> c in "\t\n\U{B}\U{C}\r\U{1C}\U{1D}\U{1E}\U{1F} "
  {
    assert IsSpace(c) ==> c as int in {9, 10, 11, 12, 13, 28, 29, 30, 31, 32};
  }

  predicate AllSpace(s: string) {
    forall i :: 0 <= i < |s| ==> IsSpace(s[i])
  }

  /** Stripping takes white space off either end, and leaves none there. */
  lemma {:induction false} StripExact(s: string) returns (front: string, back: string)
    ensures s == front + Strip(s) + back && AllSpace(front) && AllSpace(back)
    ensures Strip(s) != "" ==> !IsSpace(Strip(s)[0]) && !IsSpace(Strip(s)[|Strip(s)| - 1])
    decreases |s|
  {
    hide IsSpace;
    front, back := "", "";
    if s != [] && IsSpace(s[0]) {
      front, back := StripExact(s[1..]);
      Regroup([s[0]], front, Strip(s), back);
      front := [s[0]] + front;
    } else if s != [] && IsSpace(s[|s| - 1]) {
      front, back := StripExact(s[..|s| - 1]);
      Assoc(front + Strip(s), back, [s[|s| - 1]]);
      back := back + [s[|s| - 1]];
    }
  }

  lemma Regroup(c: string, front: string, middle: string, back: string)
    ensures c + (front + middle + back) == (c + front) + middle + back
  {
  }

  function LowerChar(c: char): char {
    if 'A' <= c <= 'Z' then c + ('a' - 'A') else c
  }

  /** `str.lower()` on ASCII letters. */
  function Lower(s: string): (r: string)
    ensures |r| == |s|
  {
    if s == [] then [] else [LowerChar(s[0])] + Lower(s[1..])
  }

  /** Capitals move 32 code points up, all else stays. */
  lemma {:induction false} LowerExact(s: string, i: nat)
    requires i < |s|
    ensures Lower(s)[i] as int == s[i] as int + if 'A' <= s[i] <= 'Z' then 32 else 0
  {
    if i > 0 {
      LowerExact(s[1..], i - 1);
    }
  }

  /** `element.get(name) or ""`. */
  function GetOrEmpty(e: Element, name: string): string {
    if name in e.attrs then e.attrs[name] else ""
  }

  // ------------------------------------------------------------------
  // Keys and dictionaries
  // ------------------------------------------------------------------

  datatype Key =
    | TableKey(axis: string)
    | TagKey(tag: string)
    | NameKey(name: string)

  /** The key of a table's child: nested tables by normalised type, all else by tag. */
  function ChildKey(e: Element): Key {
    if e.tag == "table" then TableKey(Lower(Strip(GetOrEmpty(e, "type")))) else TagKey(e.tag)
  }

  /** The key of a top-level table or scaling. */
  function ByName(e: Element): Key {
    NameKey(GetOrEmpty(e, "name"))
  }

  /** Which of the two keys a dictionary uses. */
  datatype Keying = Children | Named {
    function Of(e: Element): Key {
      if Children? then ChildKey(e) else ByName(e)
    }
  }

  function Lookup(kg: Keying, s: seq<Element>, k: Key): (r: Option<Element>)
    ensures r.Some? ==> r.value in s && kg.Of(r.value) == k
    ensures r.None? ==> forall e <- s :: kg.Of(e) != k
  {
    if s == [] then None
    else if kg.Of(s[0]) == k then Some(s[0])
    else Lookup(kg, s[1..], k)
  }

  /** `d[key(e)] = e`. */
  function Store(kg: Keying, s: seq<Element>, e: Element): (r: seq<Element>)
    ensures forall x <- r :: x in s || x == e
  {
    if s == [] then [e]
    else if kg.Of(s[0]) == kg.Of(e) then [e] + s[1..]
    else [s[0]] + Store(kg, s[1..], e)
  }

  /** `{key(e): e for e in s}`. */
  function Collapse(kg: Keying, s: seq<Element>): (r: seq<Element>)
    ensures forall x <- r :: x in s
  {
    if s == [] then [] else Store(kg, Collapse(kg, s[..|s| - 1]), s[|s| - 1])
  }

  predicate Unique(kg: Keying, s: seq<Element>) {
    s == [] || (Lookup(kg, s[1..], kg.Of(s[0])).None? && Unique(kg, s[1..]))
  }

  lemma {:induction false} StoreLookup(kg: Keying, s: seq<Element>, e: Element, k: Key)
    ensures Lookup(kg, Store(kg, s, e), k) == if kg.Of(e) == k then Some(e) else Lookup(kg, s, k)
  {
    if s != [] {
      StoreLookup(kg, s[1..], e, k);
      if kg.Of(s[0]) != kg.Of(e) {
        assert Store(kg, s, e)[1..] == Store(kg, s[1..], e);
      }
    }
  }

  lemma {:induction false} StoreUnique(kg: Keying, s: seq<Element>, e: Element)
    requires Unique(kg, s)
    ensures Unique(kg, Store(kg, s, e))
  {
    if s != [] && kg.Of(s[0]) != kg.Of(e) {
      StoreUnique(kg, s[1..], e);
      StoreLookup(kg, s[1..], e, kg.Of(s[0]));
      assert Store(kg, s, e)[1..] == Store(kg, s[1..], e);
    } else if s != [] {
      assert Store(kg, s, e)[1..] == s[1..];
    }
  }

  lemma {:induction false} CollapseUnique(kg: Keying, s: seq<Element>)
    ensures Unique(kg, Collapse(kg, s))
  {
    if s != [] {
      CollapseUnique(kg, s[..|s| - 1]);
      StoreUnique(kg, Collapse(kg, s[..|s| - 1]), s[|s| - 1]);
    }
  }

  lemma {:induction false} LookupAppend(kg: Keying, a: seq<Element>, b: seq<Element>, k: Key)
    ensures Lookup(kg, a + b, k) == if Lookup(kg, a, k).Some? then Lookup(kg, a, k) else Lookup(kg, b, k)
  {
    if a == [] {
      assert a + b == b;
    } else {
      LookupAppend(kg, a[1..], b, k);
      assert (a + b)[1..] == a[1..] + b;
    }
  }

  lemma {:induction false} StoreFresh(kg: Keying, s: seq<Element>, e: Element)
    requires Lookup(kg, s, kg.Of(e)).None?
    ensures Store(kg, s, e) == s + [e]
  {
    if s != [] {
      StoreFresh(kg, s[1..], e);
    }
  }

  lemma {:induction false} UniquePrefix(kg: Keying, a: seq<Element>, b: seq<Element>)
    requires Unique(kg, a + b)
    ensures Unique(kg, a)
    ensures forall e <- b :: Lookup(kg, a, kg.Of(e)).None?
  {
    if a != [] {
      assert (a + b)[1..] == a[1..] + b;
      UniquePrefix(kg, a[1..], b);
      LookupAppend(kg, a[1..], b, kg.Of(a[0]));
    }
  }

  /** A dictionary without repeated keys is already collapsed. */
  lemma {:induction false} CollapseOfUnique(kg: Keying, s: seq<Element>)
    requires Unique(kg, s)
    ensures Collapse(kg, s) == s
  {
    if s != [] {
      var pre, e := s[..|s| - 1], s[|s| - 1];
      assert s == pre + [e];
      UniquePrefix(kg, pre, [e]);
      CollapseOfUnique(kg, pre);
      assert e in [e];
      StoreFresh(kg, pre, e);
    }
  }

  /** The entries of `cs` whose key `bs` lacks, in order. */
  function Rest(kg: Keying, bs: seq<Element>, cs: seq<Element>): seq<Element> {
    if cs == [] then []
    else if Lookup(kg, bs, kg.Of(cs[0])).None? then [cs[0]] + Rest(kg, bs, cs[1..])
    else Rest(kg, bs, cs[1..])
  }

  lemma {:induction false} RestLookup(kg: Keying, bs: seq<Element>, cs: seq<Element>, k: Key)
    ensures Lookup(kg, Rest(kg, bs, cs), k) == if Lookup(kg, bs, k).None? then Lookup(kg, cs, k) else None
  {
    if cs != [] {
      RestLookup(kg, bs, cs[1..], k);
      if Lookup(kg, bs, kg.Of(cs[0])).None? {
        assert Rest(kg, bs, cs)[1..] == Rest(kg, bs, cs[1..]);
      }
    }
  }

  lemma {:induction false} RestUnique(kg: Keying, bs: seq<Element>, cs: seq<Element>)
    requires Unique(kg, cs)
    ensures Unique(kg, Rest(kg, bs, cs))
  {
    if cs != [] {
      RestUnique(kg, bs, cs[1..]);
      RestLookup(kg, bs, cs[1..], kg.Of(cs[0]));
      if Lookup(kg, bs, kg.Of(cs[0])).None? {
        assert Rest(kg, bs, cs)[1..] == Rest(kg, bs, cs[1..]);
      }
    }
  }

  lemma {:induction false} RestAppend(kg: Keying, bs: seq<Element>, a: seq<Element>, b: seq<Element>)
    ensures Rest(kg, bs, a + b) == Rest(kg, bs, a) + Rest(kg, bs, b)
  {
    if a == [] {
      assert a + b == b;
    } else {
      hide Lookup;
      RestAppend(kg, bs, a[1..], b);
      assert (a + b)[0] == a[0] && (a + b)[1..] == a[1..] + b;
      var head := if Lookup(kg, bs, kg.Of(a[0])).None? then [a[0]] else [];
      assert Rest(kg, bs, a) == head + Rest(kg, bs, a[1..]);
      assert Rest(kg, bs, a + b) == head + Rest(kg, bs, a[1..] + b);
      Assoc(head, Rest(kg, bs, a[1..]), Rest(kg, bs, b));
    }
  }

  lemma {:induction false} UniqueAppend(kg: Keying, a: seq<Element>, b: seq<Element>)
    requires Unique(kg, a) && Unique(kg, b)
    requires forall e <- a :: Lookup(kg, b, kg.Of(e)).None?
    ensures Unique(kg, a + b)
  {
    hide Lookup;
    if a == [] {
      assert a + b == b;
    } else {
      forall e | e in a[1..]
        ensures Lookup(kg, b, kg.Of(e)).None?
      {
        assert e in a;
      }
      UniqueAppend(kg, a[1..], b);
      LookupAppend(kg, a[1..], b, kg.Of(a[0]));
      assert a[0] in a && (a + b)[0] == a[0] && (a + b)[1..] == a[1..] + b;
    }
  }

  // ------------------------------------------------------------------
  // Overlaying
  // ------------------------------------------------------------------

  function Height(e: Element): nat {
    1 + MaxHeight(e.children)
  }

  function MaxHeight(s: seq<Element>): nat {
    if s == [] then 0 else Max(Height(s[0]), MaxHeight(s[1..]))
  }

  lemma {:induction false} HeightBound(s: seq<Element>, e: Element)
    requires e in s
    ensures Height(e) <= MaxHeight(s)
  {
    if s[0] != e {
      HeightBound(s[1..], e);
    }
  }

  lemma {:induction false} MembersBound(s: seq<Element>, t: seq<Element>)
    requires forall e <- s :: e in t
    ensures MaxHeight(s) <= MaxHeight(t)
  {
    if s != [] {
      HeightBound(t, s[0]);
      assert forall e <- s[1..] :: e in s;
      MembersBound(s[1..], t);
    }
  }

  /** `_overlay_table`. */
  function OverlayTable(base: Element, child: Element): Element
    decreases Height(base), 0
  {
    var bs, cs := Collapse(Children, base.children), Collapse(Children, child.children);
    MembersBound(bs, base.children);
    Element(base.tag, base.attrs + child.attrs, None, MergeEach(bs, cs) + Rest(Children, bs, cs))
  }

  /** Each base child, overlaid with its counterpart in `cs` if there is one. */
  function MergeEach(bs: seq<Element>, cs: seq<Element>): (r: seq<Element>)
    ensures |r| == |bs|
    decreases MaxHeight(bs), |bs| + 2
  {
    if bs == [] then [] else [MergeOne(bs[0], cs)] + MergeEach(bs[1..], cs)
  }

  function MergeOne(b: Element, cs: seq<Element>): Element
    decreases Height(b), 1
  {
    match Lookup(Children, cs, ChildKey(b))
    case None => b
    case Some(c) => if b.tag == "table" then OverlayTable(b, c) else c
  }

  /** The merged children. */
  function Merge(bs: seq<Element>, cs: seq<Element>): seq<Element> {
    MergeEach(bs, cs) + Rest(Children, bs, cs)
  }

  lemma MergeOneKey(b: Element, cs: seq<Element>)
    ensures ChildKey(MergeOne(b, cs)) == ChildKey(b)
  {
  }

  lemma {:induction false} MergeEachLookup(bs: seq<Element>, cs: seq<Element>, k: Key)
    ensures Lookup(Children, MergeEach(bs, cs), k) ==
      if Lookup(Children, bs, k).Some? then Some(MergeOne(Lookup(Children, bs, k).value, cs)) else None
    decreases |bs|
  {
    if bs != [] {
      MergeOneKey(bs[0], cs);
      MergeEachLookup(bs[1..], cs, k);
      assert MergeEach(bs, cs)[1..] == MergeEach(bs[1..], cs);
    }
  }

  /** What the merged children hold under a key. */
  lemma MergeLookup(bs: seq<Element>, cs: seq<Element>, k: Key)
    ensures Lookup(Children, Merge(bs, cs), k) ==
      if Lookup(Children, bs, k).Some? then Some(MergeOne(Lookup(Children, bs, k).value, cs))
      else Lookup(Children, cs, k)
  {
    MergeEachLookup(bs, cs, k);
    RestLookup(Children, bs, cs, k);
    LookupAppend(Children, MergeEach(bs, cs), Rest(Children, bs, cs), k);
  }

  lemma {:induction false} MergeEachUnique(bs: seq<Element>, cs: seq<Element>)
    requires Unique(Children, bs)
    ensures Unique(Children, MergeEach(bs, cs))
    decreases |bs|
  {
    if bs != [] {
      MergeEachUnique(bs[1..], cs);
      MergeOneKey(bs[0], cs);
      MergeEachLookup(bs[1..], cs, ChildKey(bs[0]));
      assert MergeEach(bs, cs)[1..] == MergeEach(bs[1..], cs);
    }
  }

  lemma MergeUnique(bs: seq<Element>, cs: seq<Element>)
    requires Unique(Children, bs) && Unique(Children, cs)
    ensures Unique(Children, Merge(bs, cs))
  {
    MergeEachUnique(bs, cs);
    RestUnique(Children, bs, cs);
    forall e | e in MergeEach(bs, cs)
      ensures Lookup(Children, Rest(Children, bs, cs), ChildKey(e)).None?
    {
      MergeEachLookup(bs, cs, ChildKey(e));
      RestLookup(Children, bs, cs, ChildKey(e));
      assert Lookup(Children, MergeEach(bs, cs), ChildKey(e)).Some?;
    }
    UniqueAppend(Children, MergeEach(bs, cs), Rest(Children, bs, cs));
  }

  // ------------------------------------------------------------------
  // Associativity, child order included
  // ------------------------------------------------------------------

  lemma {:induction false} MergeEachAppend(a: seq<Element>, b: seq<Element>, zs: seq<Element>)
    ensures MergeEach(a + b, zs) == MergeEach(a, zs) + MergeEach(b, zs)
    decreases |a|
  {
    if a == [] {
      assert a + b == b;
    } else {
      MergeEachAppend(a[1..], b, zs);
      assert (a + b)[0] == a[0] && (a + b)[1..] == a[1..] + b;
      Assoc([MergeOne(a[0], zs)], MergeEach(a[1..], zs), MergeEach(b, zs));
    }
  }

  /** Entries new in `ys`, then overlaid: the order of the two steps does not matter. */
  lemma {:induction false} RestOfMerged(xs: seq<Element>, ys: seq<Element>, zs: seq<Element>)
    ensures Rest(Children, xs, MergeEach(ys, zs)) == MergeEach(Rest(Children, xs, ys), zs)
    decreases |ys|
  {
    if ys != [] {
      RestOfMerged(xs, ys[1..], zs);
      MergeOneKey(ys[0], zs);
      assert MergeEach(ys, zs)[1..] == MergeEach(ys[1..], zs);
      var rest := Rest(Children, xs, ys[1..]);
      assert ([ys[0]] + rest)[1..] == rest;
    }
  }

  /** Entries of `zs` new against the merge of `xs` and `ys`. */
  lemma {:induction false} RestAgainstMerge(xs: seq<Element>, ys: seq<Element>, zs: seq<Element>)
    ensures Rest(Children, Merge(xs, ys), zs) == Rest(Children, xs, Rest(Children, ys, zs))
  {
    if zs != [] {
      RestAgainstMerge(xs, ys, zs[1..]);
      MergeLookup(xs, ys, ChildKey(zs[0]));
      var rest := Rest(Children, ys, zs[1..]);
      assert ([zs[0]] + rest)[1..] == rest;
    }
  }

  /** Overlay with no counterpart on the left is the identity; with one, the induction step. */
  lemma MergeOneTwice(a: Element, ys: seq<Element>, zs: seq<Element>)
    ensures MergeOne(MergeOne(a, ys), zs) == MergeOne(a, Merge(ys, zs))
    decreases Height(a), 1
  {
    var k := ChildKey(a);
    MergeOneKey(a, ys);
    MergeLookup(ys, zs, k);
    if a.tag == "table" && Lookup(Children, ys, k).Some? && Lookup(Children, zs, k).Some? {
      OverlayAssociative(a, Lookup(Children, ys, k).value, Lookup(Children, zs, k).value);
    }
  }

  lemma {:induction false} MergeEachTwice(xs: seq<Element>, ys: seq<Element>, zs: seq<Element>)
    ensures MergeEach(MergeEach(xs, ys), zs) == MergeEach(xs, Merge(ys, zs))
    decreases MaxHeight(xs), |xs| + 2
  {
    if xs != [] {
      MergeOneTwice(xs[0], ys, zs);
      MergeEachTwice(xs[1..], ys, zs);
      assert MergeEach(xs, ys)[1..] == MergeEach(xs[1..], ys);
    }
  }

  lemma MergeAssociative(xs: seq<Element>, ys: seq<Element>, zs: seq<Element>)
    ensures Merge(Merge(xs, ys), zs) == Merge(xs, Merge(ys, zs))
    decreases MaxHeight(xs), |xs| + 3
  {
    var xsys, yszs := MergeEach(xs, ys), MergeEach(ys, zs);
    MergeEachAppend(xsys, Rest(Children, xs, ys), zs);
    MergeEachTwice(xs, ys, zs);
    RestOfMerged(xs, ys, zs);
    RestAgainstMerge(xs, ys, zs);
    RestAppend(Children, xs, yszs, Rest(Children, ys, zs));
    Assoc(MergeEach(xsys, zs), MergeEach(Rest(Children, xs, ys), zs), Rest(Children, Merge(xs, ys), zs));
  }

  /** A table's children as a dictionary. */
  function Dict(e: Element): seq<Element> {
    Collapse(Children, e.children)
  }

  lemma DictHeight(e: Element)
    ensures MaxHeight(Dict(e)) < Height(e)
  {
    MembersBound(Dict(e), e.children);
  }

  /** The overlay's children are already a dictionary: the merge of the two. */
  lemma OverlayDict(a: Element, b: Element)
    ensures OverlayTable(a, b) == Element(a.tag, a.attrs + b.attrs, None, Merge(Dict(a), Dict(b)))
    ensures Dict(OverlayTable(a, b)) == Merge(Dict(a), Dict(b))
  {
    CollapseUnique(Children, a.children);
    CollapseUnique(Children, b.children);
    MergeUnique(Dict(a), Dict(b));
    CollapseOfUnique(Children, Merge(Dict(a), Dict(b)));
  }

  lemma FromMerge(a: Element, b: Element, c: Element)
    requires Merge(Merge(Dict(a), Dict(b)), Dict(c)) == Merge(Dict(a), Merge(Dict(b), Dict(c)))
    ensures OverlayTable(OverlayTable(a, b), c) == OverlayTable(a, OverlayTable(b, c))
  {
    hide OverlayTable, Merge;
    var ab, bc := OverlayTable(a, b), OverlayTable(b, c);
    OverlayDict(a, b);
    OverlayDict(b, c);
    OverlayDict(ab, c);
    OverlayDict(a, bc);
    assert (a.attrs + b.attrs) + c.attrs == a.attrs + (b.attrs + c.attrs);
  }

  /**
   Overlaying a chain of definitions gives the same element, attributes, nesting and child
   order included, whichever end it starts from. Repeated keys are no exception.
   */
  lemma OverlayAssociative(a: Element, b: Element, c: Element)
    ensures OverlayTable(OverlayTable(a, b), c) == OverlayTable(a, OverlayTable(b, c))
    decreases Height(a), 0
  {
    DictHeight(a);
    MergeAssociative(Dict(a), Dict(b), Dict(c));
    FromMerge(a, b, c);
  }
}

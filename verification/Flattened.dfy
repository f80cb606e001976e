/** A flattened definition in terms of the definitions on its chain: what is read, in what order, with what scalings. */
module Flattened {
  import opened Basics
  import opened Overlay
  import opened Inheritance
  import I = Inheritance

  // ------------------------------------------------------------------
  // What a rom says, child by child
  // ------------------------------------------------------------------

  /** The `name` attribute, or empty. */
  predicate NameIs(e: Element, name: string) {
    if "name" in e.attrs then e.attrs["name"] == name else name == ""
  }

  /** A nested table of that type, white space and capitals aside, or any other child with that tag. */
  predicate KeyIs(e: Element, k: Key) {
    match k
    case TableKey(axis) => e.tag == "table" && Lower(Strip(if "type" in e.attrs then e.attrs["type"] else "")) == axis
    case TagKey(tag) => e.tag == tag && tag != "table"
    case NameKey(_) => false
  }

  /** The last entry under a key. */
  function LastWith(kg: Keying, s: seq<Element>, k: Key): Option<Element> {
    if s == [] then None
    else if kg.Of(s[|s| - 1]) == k then Some(s[|s| - 1])
    else LastWith(kg, s[..|s| - 1], k)
  }

  /** A dictionary keeps the last entry of each key. */
  lemma {:induction false} CollapseLookup(kg: Keying, s: seq<Element>, k: Key)
    ensures Lookup(kg, Collapse(kg, s), k) == LastWith(kg, s, k)
  {
    if s != [] {
      CollapseLookup(kg, s[..|s| - 1], k);
      StoreLookup(kg, Collapse(kg, s[..|s| - 1]), s[|s| - 1], k);
    }
  }

  predicate KeyedLast(kg: Keying, s: seq<Element>, k: Key, i: nat)
    requires i < |s|
  {
    kg.Of(s[i]) == k && forall j :: i < j < |s| ==> kg.Of(s[j]) != k
  }

  lemma KeyedLastStep(kg: Keying, s: seq<Element>, k: Key, i: nat)
    requires i < |s| - 1 && kg.Of(s[|s| - 1]) != k
    ensures KeyedLast(kg, s[..|s| - 1], k, i) <==> KeyedLast(kg, s, k, i)
  {
    var front := s[..|s| - 1];
    assert forall j :: 0 <= j < |front| ==> front[j] == s[j];
  }

  lemma {:induction false} LastWithExact(kg: Keying, s: seq<Element>, k: Key, e: Element)
    ensures LastWith(kg, s, k) == Some(e) <==> exists i :: 0 <= i < |s| && KeyedLast(kg, s, k, i) && s[i] == e
  {
    if s != [] {
      var n := |s| - 1;
      LastWithExact(kg, s[..n], k, e);
      if kg.Of(s[n]) == k {
        assert KeyedLast(kg, s, k, n);
      } else {
        forall i | 0 <= i < n
          ensures s[..n][i] == s[i] && (KeyedLast(kg, s[..n], k, i) <==> KeyedLast(kg, s, k, i))
        {
          KeyedLastStep(kg, s, k, i);
        }
      }
    }
  }

  /** `c` is the last child of `e` under that key. */
  ghost predicate LastChild(e: Element, k: Key, c: Element) {
    exists i :: 0 <= i < |e.children| && LastChildAt(e.children, k, i) && e.children[i] == c
  }

  predicate LastChildAt(s: seq<Element>, k: Key, i: nat)
    requires i < |s|
  {
    KeyIs(s[i], k) && forall j :: i < j < |s| ==> !KeyIs(s[j], k)
  }

  lemma KeyExact(e: Element, k: Key)
    requires !k.NameKey?
    ensures ChildKey(e) == k <==> KeyIs(e, k)
  {
    hide Lower, Strip;
  }

  lemma ChildExact(e: Element, k: Key, c: Element)
    requires !k.NameKey?
    ensures ChildOf(Some(e), k) == Some(c) <==> LastChild(e, k, c)
  {
    CollapseLookup(Children, e.children, k);
    LastWithExact(Children, e.children, k, c);
    forall i | 0 <= i < |e.children|
      ensures Children.Of(e.children[i]) == k <==> KeyIs(e.children[i], k)
    {
      KeyExact(e.children[i], k);
    }
    hide KeyIs, ChildKey;
    assert forall i :: 0 <= i < |e.children| ==>
      (KeyedLast(Children, e.children, k, i) <==> LastChildAt(e.children, k, i));
  }

  /** `e` is the last child of `rom` with that tag and name. */
  ghost predicate LastNamed(rom: Element, tag: string, name: string, e: Element) {
    SomeLast(rom.children, tag, name, e)
  }

  ghost predicate SomeLast(s: seq<Element>, tag: string, name: string, e: Element) {
    exists i :: 0 <= i < |s| && NamedLast(s, tag, name, i) && s[i] == e
  }

  predicate NamedLast(s: seq<Element>, tag: string, name: string, i: nat)
    requires i < |s|
  {
    && s[i].tag == tag && NameIs(s[i], name)
    && forall j :: i < j < |s| ==> s[j].tag != tag || !NameIs(s[j], name)
  }

  lemma FindAllSnoc(s: seq<Element>, tag: string)
    requires s != []
    ensures var n := |s| - 1;
      FindAll(s, tag) == FindAll(s[..n], tag) + if s[n].tag == tag then [s[n]] else []
  {
    var n := |s| - 1;
    FindAllAppend(s[..n], [s[n]], tag);
    assert s == s[..n] + [s[n]] && [s[n]][1..] == [];
  }

  /** The last entry of a list is found, or the search goes on before it. */
  lemma NamedLastStep(s: seq<Element>, tag: string, name: string, i: nat)
    requires i < |s| - 1 && (s[|s| - 1].tag != tag || !NameIs(s[|s| - 1], name))
    ensures NamedLast(s[..|s| - 1], tag, name, i) <==> NamedLast(s, tag, name, i)
  {
    hide NameIs;
    var front := s[..|s| - 1];
    assert forall j :: 0 <= j < |front| ==> front[j] == s[j];
  }

  lemma SomeLastStep(s: seq<Element>, tag: string, name: string, e: Element)
    requires s != []
    ensures var n := |s| - 1;
      SomeLast(s, tag, name, e) <==>
        if s[n].tag == tag && NameIs(s[n], name) then e == s[n] else SomeLast(s[..n], tag, name, e)
  {
    var n := |s| - 1;
    if s[n].tag == tag && NameIs(s[n], name) {
      assert NamedLast(s, tag, name, n);
    } else {
      forall i | 0 <= i < n
        ensures s[..n][i] == s[i] && (NamedLast(s[..n], tag, name, i) <==> NamedLast(s, tag, name, i))
      {
        NamedLastStep(s, tag, name, i);
      }
    }
  }

  lemma {:induction false} LastEntry(s: seq<Element>, tag: string, name: string, e: Element)
    ensures LastWith(Named, FindAll(s, tag), NameKey(name)) == Some(e) <==> SomeLast(s, tag, name, e)
    decreases |s|
  {
    hide SomeLast, FindAll;
    if s == [] {
      NoneLast(tag, name, e);
    } else {
      var n := |s| - 1;
      LastEntry(s[..n], tag, name, e);
      FindAllSnoc(s, tag);
      SomeLastStep(s, tag, name, e);
      var all := FindAll(s, tag);
      if s[n].tag == tag {
        assert all[..|all| - 1] == FindAll(s[..n], tag);
      } else {
        assert all == FindAll(s[..n], tag);
      }
    }
  }

  lemma NoneLast(tag: string, name: string, e: Element)
    ensures FindAll([], tag) == [] && !SomeLast([], tag, name, e)
  {
  }

  lemma EntryExact(rom: Element, tag: string, name: string, e: Element)
    ensures Entry(rom, tag, name) == Some(e) <==> LastNamed(rom, tag, name, e)
  {
    CollapseLookup(Named, FindAll(rom.children, tag), NameKey(name));
    LastEntry(rom.children, tag, name, e);
  }

  /** From `e`, down the nested tables of those types, to `t`. */
  ghost predicate Leads(e: Element, path: seq<string>, t: Element)
    decreases |path|
  {
    if path == [] then t == e
    else exists c :: LastChild(e, TableKey(path[0]), c) && Leads(c, path[1..], t)
  }

  lemma {:induction false} DescendExact(e: Element, path: seq<string>, t: Element)
    ensures Descend(Some(e), path) == Some(t) <==> Leads(e, path, t)
    decreases |path|
  {
    if path != [] {
      var c := ChildOf(Some(e), TableKey(path[0]));
      if c.Some? {
        ChildExact(e, TableKey(path[0]), c.value);
        DescendExact(c.value, path[1..], t);
      } else {
        NothingBelow(path[1..]);
      }
      forall d | LastChild(e, TableKey(path[0]), d)
        ensures c == Some(d)
      {
        ChildExact(e, TableKey(path[0]), d);
      }
    }
  }

  lemma {:induction false} NothingBelow(path: seq<string>)
    ensures Descend(None, path) == None
    decreases |path|
  {
    if path != [] {
      NothingBelow(path[1..]);
    }
  }

  /** The table a rom has under a name and a path, in its own children. */
  ghost predicate Holds(rom: Element, name: string, path: seq<string>, t: Element) {
    exists e :: LastNamed(rom, "table", name, e) && Leads(e, path, t)
  }

  lemma TableExact(rom: Element, name: string, path: seq<string>, t: Element)
    ensures Descend(Entry(rom, "table", name), path) == Some(t) <==> Holds(rom, name, path, t)
  {
    hide Descend, Leads, LastNamed;
    var e := Entry(rom, "table", name);
    if e.Some? {
      EntryExact(rom, "table", name, e.value);
      DescendExact(e.value, path, t);
    } else {
      NothingBelow(path);
    }
    forall d | LastNamed(rom, "table", name, d)
      ensures e == Some(d)
    {
      EntryExact(rom, "table", name, d);
    }
  }

  /** Reading an attribute of a table, or of one nested in it, finds it exactly when it stands there. */
  lemma ReadsAttribute(rom: Element, name: string, path: seq<string>, attr: string, v: string)
    ensures Read(InTable(name, path, AttributeOf(attr)), rom) == Some(Text(v))
      <==> exists t :: Holds(rom, name, path, t) && attr in t.attrs && t.attrs[attr] == v
  {
    hide Descend, Holds;
    var d := Descend(Entry(rom, "table", name), path);
    if d.Some? {
      TableExact(rom, name, path, d.value);
    }
    forall t | Holds(rom, name, path, t)
      ensures d == Some(t)
    {
      TableExact(rom, name, path, t);
    }
  }

  /** Reading a child, likewise. */
  lemma ReadsChild(rom: Element, name: string, path: seq<string>, tag: string, c: Element)
    ensures Read(InTable(name, path, ChildWith(tag)), rom) == Some(Whole(c))
      <==> exists t :: Holds(rom, name, path, t) && LastChild(t, TagKey(tag), c)
  {
    hide Descend, Holds, LastChild, ChildOf;
    var d := Descend(Entry(rom, "table", name), path);
    if d.Some? {
      TableExact(rom, name, path, d.value);
      ChildExact(d.value, TagKey(tag), c);
    } else {
      assert ChildOf(None, TagKey(tag)) == None by {
        NoChildOfNone(TagKey(tag));
      }
    }
    forall t | Holds(rom, name, path, t)
      ensures d == Some(t)
    {
      TableExact(rom, name, path, t);
    }
  }

  lemma NoChildOfNone(k: Key)
    ensures ChildOf(None, k) == None
  {
  }

  /** Reading an attribute of a scaling, likewise. */
  lemma ReadsScaling(rom: Element, name: string, attr: string, v: string)
    ensures Read(ScalingAttribute(name, attr), rom) == Some(Text(v))
      <==> exists e :: LastNamed(rom, "scaling", name, e) && attr in e.attrs && e.attrs[attr] == v
  {
    hide LastNamed;
    var d := Entry(rom, "scaling", name);
    if d.Some? {
      EntryExact(rom, "scaling", name, d.value);
    }
    forall e | LastNamed(rom, "scaling", name, e)
      ensures d == Some(e)
    {
      EntryExact(rom, "scaling", name, e);
    }
  }

  // ------------------------------------------------------------------
  // Children of scalings pile up
  // ------------------------------------------------------------------

  function ScalingChildren(rom: Element, name: string): seq<Element> {
    var e := Entry(rom, "scaling", name);
    if e.Some? then e.value.children else []
  }

  /** The children of the scaling in every rom of the chain, the farthest rom first. */
  function Pile(name: string, chain: seq<Element>): seq<Element> {
    if chain == [] then [] else Pile(name, chain[1..]) + ScalingChildren(chain[0], name)
  }

  lemma MergedScaling(parent: Element, rom: Element, name: string)
    ensures ScalingChildren(MergeRom(parent, rom), name) == ScalingChildren(parent, name) + ScalingChildren(rom, name)
  {
    MergedEntry(parent, rom, "scaling", name);
    EntryTag(parent, "scaling", name);
  }

  /** A flattened scaling has the children of all its definitions, the farthest rom's first. */
  lemma {:induction false} ScalingsPileUp(rom: Element, roms: Index, visiting: set<string>, name: string)
    requires I.Flatten(rom, roms, visiting).Ok?
    ensures Chain(rom, roms, visiting).Some?
    ensures ScalingChildren(I.Flatten(rom, roms, visiting).value, name) == Pile(name, Chain(rom, roms, visiting).value)
    decreases Remaining(rom, roms, visiting)
  {
    hide ScalingChildren, MergeRom;
    var id := RomXmlid(rom);
    match Parent(rom, roms)
    case None =>
      assert [rom][1..] == [] && [] + ScalingChildren(rom, name) == ScalingChildren(rom, name);
    case Some(parent) =>
      Fewer(rom, parent, roms, visiting);
      ScalingsPileUp(parent, roms, visiting + {id}, name);
      MergedScaling(I.Flatten(parent, roms, visiting + {id}).value, rom, name);
      var above := Chain(parent, roms, visiting + {id}).value;
      assert ([rom] + above)[1..] == above;
  }

  lemma Fewer(rom: Element, parent: Element, roms: Index, visiting: set<string>)
    requires Parent(rom, roms) == Some(parent) && RomXmlid(rom) !in visiting
    ensures Remaining(parent, roms, visiting + {RomXmlid(rom)}) < Remaining(rom, roms, visiting)
  {
    var id := RomXmlid(rom);
    assert id in Remaining(rom, roms, visiting) && id !in Remaining(parent, roms, visiting + {id});
    assert Remaining(parent, roms, visiting + {id}) <= Remaining(rom, roms, visiting);
  }

  // ------------------------------------------------------------------
  // Order of the entries
  // ------------------------------------------------------------------

  function NameOf(e: Element): string {
    if "name" in e.attrs then e.attrs["name"] else ""
  }

  function NamesOf(s: seq<Element>): (r: seq<string>)
    ensures |r| == |s|
  {
    if s == [] then [] else [NameOf(s[0])] + NamesOf(s[1..])
  }

  /** The names of `more` that `names` lacks, in order. */
  function Without(names: seq<string>, more: seq<string>): seq<string> {
    if more == [] then []
    else (if more[0] in names then [] else [more[0]]) + Without(names, more[1..])
  }

  /** Every name once, where it first appears. */
  function FirstNames(s: seq<Element>): seq<string> {
    if s == [] then []
    else
      var front, n := FirstNames(s[..|s| - 1]), NameOf(s[|s| - 1]);
      if n in front then front else front + [n]
  }

  lemma {:induction false} NamesLookup(s: seq<Element>, n: string)
    ensures Lookup(Named, s, NameKey(n)).Some? <==> n in NamesOf(s)
  {
    if s != [] {
      NamesLookup(s[1..], n);
      assert NamesOf(s)[1..] == NamesOf(s[1..]);
      assert NamesOf(s) == [NameOf(s[0])] + NamesOf(s[1..]);
    }
  }

  lemma {:induction false} NamesAppend(a: seq<Element>, b: seq<Element>)
    ensures NamesOf(a + b) == NamesOf(a) + NamesOf(b)
  {
    if a == [] {
      assert a + b == b;
    } else {
      NamesAppend(a[1..], b);
      assert (a + b)[0] == a[0] && (a + b)[1..] == a[1..] + b;
      Assoc([NameOf(a[0])], NamesOf(a[1..]), NamesOf(b));
    }
  }

  lemma {:induction false} StoreNames(s: seq<Element>, e: Element)
    ensures NamesOf(Store(Named, s, e)) == if NameOf(e) in NamesOf(s) then NamesOf(s) else NamesOf(s) + [NameOf(e)]
  {
    if s != [] {
      StoreNames(s[1..], e);
      assert NamesOf(s) == [NameOf(s[0])] + NamesOf(s[1..]);
      if NameOf(s[0]) == NameOf(e) {
        assert Store(Named, s, e)[1..] == s[1..];
      } else {
        assert Store(Named, s, e)[1..] == Store(Named, s[1..], e);
        Assoc([NameOf(s[0])], NamesOf(s[1..]), [NameOf(e)]);
      }
    } else {
      assert [e][1..] == [] && NamesOf([e]) == [NameOf(e)] + [];
    }
  }

  lemma {:induction false} CollapseNames(s: seq<Element>)
    ensures NamesOf(Collapse(Named, s)) == FirstNames(s)
  {
    if s != [] {
      CollapseNames(s[..|s| - 1]);
      StoreNames(Collapse(Named, s[..|s| - 1]), s[|s| - 1]);
    }
  }

  lemma {:induction false} RestNames(ps: seq<Element>, cs: seq<Element>)
    ensures NamesOf(Rest(Named, ps, cs)) == Without(NamesOf(ps), NamesOf(cs))
  {
    if cs != [] {
      RestNames(ps, cs[1..]);
      NamesLookup(ps, NameOf(cs[0]));
      var rest := Rest(Named, ps, cs[1..]);
      assert NamesOf(cs)[1..] == NamesOf(cs[1..]) && NamesOf(cs)[0] == NameOf(cs[0]);
      assert ([cs[0]] + rest)[1..] == rest;
    }
  }

  lemma {:induction false} OverlayNames(ps: seq<Element>, cs: seq<Element>)
    ensures NamesOf(OverlayEach(ps, cs)) == NamesOf(ps)
  {
    if ps != [] {
      OverlayNames(ps[1..], cs);
      assert OverlayEach(ps, cs)[1..] == OverlayEach(ps[1..], cs);
      var c := Lookup(Named, cs, ByName(ps[0]));
      if c.Some? {
        OverlayNamedKey(ps[0], c.value);
      }
    }
  }

  /** The names of a rom's tables or scalings, in order. */
  function Order(rom: Element, tag: string): seq<string> {
    NamesOf(Entries(rom, tag))
  }

  /** The names along a chain: those of the farthest rom, then what each nearer one adds. */
  function ChainOrder(chain: seq<Element>, tag: string): seq<string> {
    if chain == [] then []
    else ChainOrder(chain[1..], tag) + Without(ChainOrder(chain[1..], tag), FirstNames(FindAll(chain[0].children, tag)))
  }

  lemma OrderFirst(rom: Element, tag: string)
    ensures Order(rom, tag) == FirstNames(FindAll(rom.children, tag))
  {
    CollapseNames(FindAll(rom.children, tag));
  }

  lemma MergedOrder(parent: Element, rom: Element, tag: string)
    requires tag == "table" || tag == "scaling"
    ensures Order(MergeRom(parent, rom), tag) == Order(parent, tag) + Without(Order(parent, tag), Order(rom, tag))
  {
    MergedEntries(parent, rom, tag);
    var ps, cs := Entries(parent, tag), Entries(rom, tag);
    NamesAppend(OverlayEach(ps, cs), Rest(Named, ps, cs));
    OverlayNames(ps, cs);
    RestNames(ps, cs);
  }

  lemma {:induction false} WithoutNothing(names: seq<string>)
    ensures Without([], names) == names
  {
    if names != [] {
      WithoutNothing(names[1..]);
    }
  }

  /** A flattened rom lists its tables, and its scalings, the farthest rom's first, none twice. */
  lemma {:induction false} FlattenedOrder(rom: Element, roms: Index, visiting: set<string>, tag: string)
    requires (tag == "table" || tag == "scaling") && I.Flatten(rom, roms, visiting).Ok?
    ensures Chain(rom, roms, visiting).Some?
    ensures Order(I.Flatten(rom, roms, visiting).value, tag) == ChainOrder(Chain(rom, roms, visiting).value, tag)
    decreases Remaining(rom, roms, visiting)
  {
    hide Order, MergeRom;
    OrderFirst(rom, tag);
    var id := RomXmlid(rom);
    match Parent(rom, roms)
    case None =>
      WithoutNothing(FirstNames(FindAll(rom.children, tag)));
      assert [rom][1..] == [] && [] + Order(rom, tag) == Order(rom, tag);
    case Some(parent) =>
      Fewer(rom, parent, roms, visiting);
      FlattenedOrder(parent, roms, visiting + {id}, tag);
      MergedOrder(I.Flatten(parent, roms, visiting + {id}).value, rom, tag);
      var above := Chain(parent, roms, visiting + {id}).value;
      assert ([rom] + above)[1..] == above;
  }

  /** A flattened rom keeps its own attributes. */
  lemma OwnAttributes(rom: Element, roms: Index, visiting: set<string>)
    requires I.Flatten(rom, roms, visiting).Ok?
    ensures I.Flatten(rom, roms, visiting).value.attrs == rom.attrs
  {
  }
}

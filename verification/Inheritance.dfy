/** Flattening of `<rom>` inheritance chains: `_flatten_rom_inheritance`. */
module Inheritance {
  import opened Basics
  import opened Overlay

  // ------------------------------------------------------------------
  // Reading an element
  // ------------------------------------------------------------------

  function FindAll(s: seq<Element>, tag: string): (r: seq<Element>)
    ensures forall e <- r :: e in s && e.tag == tag
  {
    if s == [] then []
    else if s[0].tag == tag then [s[0]] + FindAll(s[1..], tag)
    else FindAll(s[1..], tag)
  }

  /** `c` is the first child of `e` with that tag. */
  ghost predicate FirstChild(e: Element, tag: string, c: Element) {
    exists i :: 0 <= i < |e.children| && FirstAt(e.children, tag, i) && e.children[i] == c
  }

  predicate FirstAt(s: seq<Element>, tag: string, i: nat)
    requires i < |s|
  {
    s[i].tag == tag && forall j :: 0 <= j < i ==> s[j].tag != tag
  }

  /** `element.find(tag)`. */
  function Find(s: seq<Element>, tag: string): (r: Option<Element>)
    ensures r.Some? ==> r.value in s && r.value.tag == tag
    ensures r.None? ==> forall e <- s :: e.tag != tag
  {
    if s == [] then None else if s[0].tag == tag then Some(s[0]) else Find(s[1..], tag)
  }

  /** `element.findtext(tag) or ""`. */
  function FindText(e: Element, tag: string): string {
    match Find(e.children, tag)
    case None => ""
    case Some(c) => if c.text.Some? then c.text.value else ""
  }

  function RomXmlid(rom: Element): string {
    match Find(rom.children, "romid")
    case None => ""
    case Some(id) => Strip(FindText(id, "xmlid"))
  }

  /** `_rom_base`: the attribute on the rom, else the romid's child, else the romid's attribute. */
  function RomBase(rom: Element): string {
    if Strip(GetOrEmpty(rom, "base")) != "" then Strip(GetOrEmpty(rom, "base"))
    else match Find(rom.children, "romid")
      case None => ""
      case Some(id) =>
        if Strip(FindText(id, "base")) != "" then Strip(FindText(id, "base"))
        else Strip(GetOrEmpty(id, "base"))
  }

  type Index = map<string, Element>

  function Parent(rom: Element, roms: Index): Option<Element> {
    var base := RomBase(rom);
    if base != "" && base in roms then Some(roms[base]) else None
  }

  // ------------------------------------------------------------------
  // Which rom is the base
  // ------------------------------------------------------------------

  lemma {:induction false} FindFirst(s: seq<Element>, tag: string, i: nat)
    requires i < |s| && FirstAt(s, tag, i)
    ensures Find(s, tag) == Some(s[i])
  {
    if i > 0 {
      assert s[0].tag != tag;
      assert forall j :: 0 <= j < i - 1 ==> s[1..][j] == s[j + 1];
      FindFirst(s[1..], tag, i - 1);
    }
  }

  lemma ChildFound(e: Element, tag: string, c: Element)
    requires FirstChild(e, tag, c)
    ensures Find(e.children, tag) == Some(c)
  {
    var i :| 0 <= i < |e.children| && FirstAt(e.children, tag, i) && e.children[i] == c;
    FindFirst(e.children, tag, i);
  }

  ghost predicate NoChild(e: Element, tag: string) {
    forall c <- e.children :: c.tag != tag
  }

  lemma NoneFound(e: Element, tag: string)
    requires NoChild(e, tag)
    ensures Find(e.children, tag) == None
  {
  }

  /** An attribute that is not there, or white space only. */
  predicate BlankAttribute(e: Element, name: string) {
    name in e.attrs ==> Strip(e.attrs[name]) == ""
  }

  /** A first child that is not there, or white space only. */
  ghost predicate BlankChild(e: Element, tag: string) {
    NoChild(e, tag) || exists c :: FirstChild(e, tag, c) && (c.text.Some? ==> Strip(c.text.value) == "")
  }

  /** The rom named `p`, if the index has one. */
  function RomNamed(roms: Index, p: string): Option<Element> {
    if p in roms then Some(roms[p]) else None
  }

  /** A non-blank `base` attribute on the rom names the base, whatever the romid says. */
  lemma BaseOnRom(rom: Element, roms: Index, p: string)
    requires "base" in rom.attrs && Strip(rom.attrs["base"]) == p != ""
    ensures Ancestor(rom, roms, 1) == RomNamed(roms, p)
  {
    OneUp(rom, roms);
  }

  /** Failing that, a non-blank `<base>` of the romid does, whatever the romid's attribute says. */
  lemma BaseInRomid(rom: Element, romid: Element, base: Element, roms: Index, p: string)
    requires BlankAttribute(rom, "base")
    requires FirstChild(rom, "romid", romid) && FirstChild(romid, "base", base)
    requires base.text.Some? && Strip(base.text.value) == p != ""
    ensures Ancestor(rom, roms, 1) == RomNamed(roms, p)
  {
    OneUp(rom, roms);
    ChildFound(rom, "romid", romid);
    ChildFound(romid, "base", base);
  }

  /** Failing both, a non-blank `base` attribute of the romid does. */
  lemma BaseOnRomid(rom: Element, romid: Element, roms: Index, p: string)
    requires BlankAttribute(rom, "base")
    requires FirstChild(rom, "romid", romid) && BlankChild(romid, "base")
    requires "base" in romid.attrs && Strip(romid.attrs["base"]) == p != ""
    ensures Ancestor(rom, roms, 1) == RomNamed(roms, p)
  {
    OneUp(rom, roms);
    ChildFound(rom, "romid", romid);
    BlankText(romid, "base");
  }

  /** A rom in which all three are blank has no base. */
  lemma NoBase(rom: Element, roms: Index)
    requires BlankAttribute(rom, "base")
    requires NoChild(rom, "romid") || exists romid ::
      FirstChild(rom, "romid", romid) && BlankChild(romid, "base") && BlankAttribute(romid, "base")
    ensures Ancestor(rom, roms, 1) == None
    ensures forall visiting :: RomXmlid(rom) !in visiting ==> Flatten(rom, roms, visiting) == Ok(rom)
  {
    OneUp(rom, roms);
    if NoChild(rom, "romid") {
      NoneFound(rom, "romid");
    } else {
      var romid :| FirstChild(rom, "romid", romid) && BlankChild(romid, "base") && BlankAttribute(romid, "base");
      ChildFound(rom, "romid", romid);
      BlankText(romid, "base");
    }
  }

  lemma OneUp(rom: Element, roms: Index)
    ensures Ancestor(rom, roms, 1) == Parent(rom, roms)
  {
    match Parent(rom, roms)
    case None =>
    case Some(p) => assert Ancestor(p, roms, 0) == Some(p);
  }

  lemma BlankText(e: Element, tag: string)
    requires BlankChild(e, tag)
    ensures Strip(FindText(e, tag)) == ""
  {
    if NoChild(e, tag) {
      NoneFound(e, tag);
    } else {
      var c :| FirstChild(e, tag, c) && (c.text.Some? ==> Strip(c.text.value) == "");
      ChildFound(e, tag, c);
    }
  }

  /** A rom's xmlid is the text of its romid's first `<xmlid>`, stripped ... */
  lemma XmlidText(rom: Element, romid: Element, x: Element)
    requires FirstChild(rom, "romid", romid) && FirstChild(romid, "xmlid", x)
    ensures RomXmlid(rom) == if x.text.Some? then Strip(x.text.value) else ""
  {
    ChildFound(rom, "romid", romid);
    ChildFound(romid, "xmlid", x);
    assert Strip("") == "";
  }

  /** ... and empty without a romid or without an `<xmlid>` in it. */
  lemma NoXmlid(rom: Element)
    requires NoChild(rom, "romid") || exists romid :: FirstChild(rom, "romid", romid) && NoChild(romid, "xmlid")
    ensures RomXmlid(rom) == ""
  {
    if NoChild(rom, "romid") {
      NoneFound(rom, "romid");
    } else {
      var romid :| FirstChild(rom, "romid", romid) && NoChild(romid, "xmlid");
      ChildFound(rom, "romid", romid);
      NoneFound(romid, "xmlid");
    }
  }

  /** A rom that names itself as its base cannot be flattened. */
  lemma OwnBase(rom: Element, romid: Element, x: Element, roms: Index, id: string)
    requires FirstChild(rom, "romid", romid) && FirstChild(romid, "xmlid", x)
    requires x.text.Some? && Strip(x.text.value) == id != ""
    requires "base" in rom.attrs && Strip(rom.attrs["base"]) == id && RomNamed(roms, id) == Some(rom)
    ensures Flatten(rom, roms, {}) == Err(Cycle(id))
  {
    XmlidText(rom, romid, x);
    hide FirstChild, Find, Strip, RomXmlid;
    assert Parent(rom, roms) == Some(rom);
    assert Flatten(rom, roms, {} + {id}) == Err(Cycle(id));
  }

  // ------------------------------------------------------------------
  // One merge
  // ------------------------------------------------------------------

  /** `_overlay_scaling`. */
  function OverlayScaling(base: Element, child: Element): Element {
    Element(base.tag, base.attrs + child.attrs, None, base.children + child.children)
  }

  function OverlayNamed(base: Element, child: Element): Element {
    if base.tag == "table" then OverlayTable(base, child) else OverlayScaling(base, child)
  }

  /** Parent entries first, each overlaid with the child's entry of that name. */
  function OverlayEach(ps: seq<Element>, cs: seq<Element>): seq<Element> {
    if ps == [] then []
    else
      var c := Lookup(Named, cs, ByName(ps[0]));
      [if c.Some? then OverlayNamed(ps[0], c.value) else ps[0]] + OverlayEach(ps[1..], cs)
  }

  function MergeNamed(ps: seq<Element>, cs: seq<Element>): seq<Element> {
    OverlayEach(ps, cs) + Rest(Named, ps, cs)
  }

  /** The named entries of one kind, as a dictionary. */
  function Entries(rom: Element, tag: string): seq<Element> {
    Collapse(Named, FindAll(rom.children, tag))
  }

  function Leaf(e: Element): Element {
    Element(e.tag, map[], e.text, [])
  }

  function Leaves(s: seq<Element>): seq<Element> {
    if s == [] then [] else [Leaf(s[0])] + Leaves(s[1..])
  }

  /** Overwrite the first field with that tag, or add one. */
  function SetField(s: seq<Element>, f: Element): seq<Element> {
    if s == [] then [Leaf(f)]
    else if s[0].tag == f.tag then [s[0].(text := f.text)] + s[1..]
    else [s[0]] + SetField(s[1..], f)
  }

  function SetFields(s: seq<Element>, fs: seq<Element>): seq<Element> {
    if fs == [] then s else SetField(SetFields(s, fs[..|fs| - 1]), fs[|fs| - 1])
  }

  /** The merged romid: the parent's fields, overwritten by the child's; none if the child has none. */
  function MergeRomId(parent: Element, child: Element): seq<Element> {
    match Find(child.children, "romid")
    case None => []
    case Some(c) =>
      var p := Find(parent.children, "romid");
      [Element("romid", map[], None, SetFields(if p.Some? then Leaves(p.value.children) else [], c.children))]
  }

  function MergeRom(parent: Element, rom: Element): Element {
    Element("rom", rom.attrs, None,
            MergeRomId(parent, rom) +
            MergeNamed(Entries(parent, "table"), Entries(rom, "table")) +
            MergeNamed(Entries(parent, "scaling"), Entries(rom, "scaling")))
  }

  // ------------------------------------------------------------------
  // The recursion
  // ------------------------------------------------------------------

  datatype Error = Cycle(xmlid: string)

  /** The xmlids a chain can still meet. */
  ghost function Remaining(rom: Element, roms: Index, visiting: set<string>): set<string> {
    (set k | k in roms :: RomXmlid(roms[k])) + {RomXmlid(rom)} - visiting
  }

  /** `_flatten_rom_inheritance`. */
  function Flatten(rom: Element, roms: Index, visiting: set<string>): Result<Element, Error>
    decreases Remaining(rom, roms, visiting)
  {
    var id := RomXmlid(rom);
    if id in visiting then Err(Cycle(id))
    else
      match Parent(rom, roms)
      case None => Ok(rom)
      case Some(parent) =>
        assert id in Remaining(rom, roms, visiting) && id !in Remaining(parent, roms, visiting + {id});
        assert Remaining(parent, roms, visiting + {id}) <= Remaining(rom, roms, visiting);
        match Flatten(parent, roms, visiting + {id})
        case Err(e) => Err(e)
        case Ok(flat) => Ok(MergeRom(flat, rom))
  }

  /** The rom `n` steps up the base chain, if the chain is that long. */
  function Ancestor(rom: Element, roms: Index, n: nat): Option<Element>
    decreases n
  {
    if n == 0 then Some(rom)
    else match Parent(rom, roms)
      case None => None
      case Some(p) => Ancestor(p, roms, n - 1)
  }

  /** The chain revisits an xmlid, or meets one of `visiting`. */
  ghost predicate Revisits(rom: Element, roms: Index, visiting: set<string>) {
    exists j: nat :: RevisitsAt(rom, roms, visiting, j)
  }

  ghost predicate RevisitsAt(rom: Element, roms: Index, visiting: set<string>, j: nat) {
    Ancestor(rom, roms, j).Some? &&
    var id := RomXmlid(Ancestor(rom, roms, j).value);
    (id in visiting ||
     exists i: nat :: i < j && Ancestor(rom, roms, i).Some? && RomXmlid(Ancestor(rom, roms, i).value) == id)
  }

  /** Moving one step up the chain turns the first rom into one already visited. */
  lemma RevisitsUp(rom: Element, parent: Element, roms: Index, visiting: set<string>)
    requires Parent(rom, roms) == Some(parent) && RomXmlid(rom) !in visiting
    ensures Revisits(rom, roms, visiting) <==> Revisits(parent, roms, visiting + {RomXmlid(rom)})
  {
    var v' := visiting + {RomXmlid(rom)};
    forall j: nat | RevisitsAt(parent, roms, v', j)
      ensures RevisitsAt(rom, roms, visiting, j + 1)
    {
      assert Ancestor(rom, roms, j + 1) == Ancestor(parent, roms, j);
      var id := RomXmlid(Ancestor(parent, roms, j).value);
      if id == RomXmlid(rom) {
        assert Ancestor(rom, roms, 0) == Some(rom);
      } else if id !in v' {
        var i: nat :| i < j && Ancestor(parent, roms, i).Some? && RomXmlid(Ancestor(parent, roms, i).value) == id;
        assert Ancestor(rom, roms, i + 1) == Ancestor(parent, roms, i);
      }
    }
    forall j: nat | RevisitsAt(rom, roms, visiting, j)
      ensures Revisits(parent, roms, v')
    {
      assert Ancestor(rom, roms, 0) == Some(rom);
      assert j > 0;
      assert Ancestor(rom, roms, j) == Ancestor(parent, roms, j - 1);
      var id := RomXmlid(Ancestor(rom, roms, j).value);
      if id !in visiting {
        var i: nat :| i < j && Ancestor(rom, roms, i).Some? && RomXmlid(Ancestor(rom, roms, i).value) == id;
        if i > 0 {
          assert Ancestor(rom, roms, i) == Ancestor(parent, roms, i - 1);
        }
      }
      assert RevisitsAt(parent, roms, v', j - 1);
    }
  }

  /** Flattening fails exactly when the base chain comes back to an xmlid. */
  lemma {:induction false} CycleExact(rom: Element, roms: Index, visiting: set<string>)
    ensures Flatten(rom, roms, visiting).Err? <==> Revisits(rom, roms, visiting)
    decreases Remaining(rom, roms, visiting)
  {
    var id := RomXmlid(rom);
    assert Ancestor(rom, roms, 0) == Some(rom);
    if id in visiting {
      assert RevisitsAt(rom, roms, visiting, 0);
    } else {
      match Parent(rom, roms)
      case None =>
        forall j: nat
          ensures !RevisitsAt(rom, roms, visiting, j)
        {
        }
      case Some(parent) =>
        assert id in Remaining(rom, roms, visiting) && id !in Remaining(parent, roms, visiting + {id});
        assert Remaining(parent, roms, visiting + {id}) <= Remaining(rom, roms, visiting);
        CycleExact(parent, roms, visiting + {id});
        RevisitsUp(rom, parent, roms, visiting);
    }
  }

  // ------------------------------------------------------------------
  // What a flattened rom says
  // ------------------------------------------------------------------

  lemma {:induction false} FindAllAppend(a: seq<Element>, b: seq<Element>, tag: string)
    ensures FindAll(a + b, tag) == FindAll(a, tag) + FindAll(b, tag)
  {
    if a == [] {
      assert a + b == b;
    } else {
      FindAllAppend(a[1..], b, tag);
      assert (a + b)[0] == a[0] && (a + b)[1..] == a[1..] + b;
      Assoc([a[0]], FindAll(a[1..], tag), FindAll(b, tag));
    }
  }

  lemma {:induction false} FindAllOfOneTag(s: seq<Element>, t: string, tag: string)
    requires forall e <- s :: e.tag == t
    ensures FindAll(s, tag) == if t == tag then s else []
  {
    if s != [] {
      assert s[0] in s && forall e <- s[1..] :: e in s;
      FindAllOfOneTag(s[1..], t, tag);
    }
  }

  lemma OverlayNamedKey(p: Element, c: Element)
    requires ByName(p) == ByName(c)
    ensures ByName(OverlayNamed(p, c)) == ByName(p) && OverlayNamed(p, c).tag == p.tag
  {
  }

  lemma {:induction false} OverlayEachLookup(ps: seq<Element>, cs: seq<Element>, k: Key)
    ensures Lookup(Named, OverlayEach(ps, cs), k) ==
      match Lookup(Named, ps, k)
      case None => None
      case Some(p) => if Lookup(Named, cs, k).Some? then Some(OverlayNamed(p, Lookup(Named, cs, k).value)) else Some(p)
  {
    if ps != [] {
      OverlayEachLookup(ps[1..], cs, k);
      assert OverlayEach(ps, cs)[1..] == OverlayEach(ps[1..], cs);
      var c := Lookup(Named, cs, ByName(ps[0]));
      if c.Some? {
        OverlayNamedKey(ps[0], c.value);
      }
    }
  }

  /** What the merged entries hold under a name. */
  lemma MergeNamedLookup(ps: seq<Element>, cs: seq<Element>, k: Key)
    ensures Lookup(Named, MergeNamed(ps, cs), k) ==
      match Lookup(Named, ps, k)
      case None => Lookup(Named, cs, k)
      case Some(p) => if Lookup(Named, cs, k).Some? then Some(OverlayNamed(p, Lookup(Named, cs, k).value)) else Some(p)
  {
    OverlayEachLookup(ps, cs, k);
    RestLookup(Named, ps, cs, k);
    LookupAppend(Named, OverlayEach(ps, cs), Rest(Named, ps, cs), k);
  }

  lemma {:induction false} OverlayEachUnique(ps: seq<Element>, cs: seq<Element>)
    requires Unique(Named, ps)
    ensures Unique(Named, OverlayEach(ps, cs))
  {
    if ps != [] {
      OverlayEachUnique(ps[1..], cs);
      assert OverlayEach(ps, cs)[1..] == OverlayEach(ps[1..], cs);
      OverlayEachLookup(ps[1..], cs, ByName(ps[0]));
      var c := Lookup(Named, cs, ByName(ps[0]));
      if c.Some? {
        OverlayNamedKey(ps[0], c.value);
      }
    }
  }

  lemma MergeNamedUnique(ps: seq<Element>, cs: seq<Element>)
    requires Unique(Named, ps) && Unique(Named, cs)
    ensures Unique(Named, MergeNamed(ps, cs))
  {
    OverlayEachUnique(ps, cs);
    RestUnique(Named, ps, cs);
    forall e | e in OverlayEach(ps, cs)
      ensures Lookup(Named, Rest(Named, ps, cs), ByName(e)).None?
    {
      OverlayEachLookup(ps, cs, ByName(e));
      RestLookup(Named, ps, cs, ByName(e));
      assert Lookup(Named, OverlayEach(ps, cs), ByName(e)).Some?;
    }
    UniqueAppend(Named, OverlayEach(ps, cs), Rest(Named, ps, cs));
  }

  lemma {:induction false} OverlayEachTag(ps: seq<Element>, cs: seq<Element>, tag: string)
    requires forall e <- ps :: e.tag == tag
    ensures forall e <- OverlayEach(ps, cs) :: e.tag == tag
  {
    if ps != [] {
      assert ps[0] in ps && forall e <- ps[1..] :: e in ps;
      OverlayEachTag(ps[1..], cs, tag);
    }
  }

  lemma {:induction false} RestMembers(ps: seq<Element>, cs: seq<Element>)
    ensures forall e <- Rest(Named, ps, cs) :: e in cs
  {
    if cs != [] {
      RestMembers(ps, cs[1..]);
    }
  }

  /** The merged rom's tables and scalings are the merges of its parts'. */
  lemma MergedEntries(parent: Element, rom: Element, tag: string)
    requires tag == "table" || tag == "scaling"
    ensures Entries(MergeRom(parent, rom), tag) == MergeNamed(Entries(parent, tag), Entries(rom, tag))
  {
    var ids := MergeRomId(parent, rom);
    var ts := MergeNamed(Entries(parent, "table"), Entries(rom, "table"));
    var ss := MergeNamed(Entries(parent, "scaling"), Entries(rom, "scaling"));
    MergedTag(parent, rom, "table");
    MergedTag(parent, rom, "scaling");
    assert forall e <- ids :: e.tag == "romid";
    FindAllAppend(ids + ts, ss, tag);
    FindAllAppend(ids, ts, tag);
    FindAllOfOneTag(ids, "romid", tag);
    FindAllOfOneTag(ts, "table", tag);
    FindAllOfOneTag(ss, "scaling", tag);
    assert FindAll(MergeRom(parent, rom).children, tag) == if tag == "table" then ts else ss;
    CollapseUnique(Named, FindAll(parent.children, tag));
    CollapseUnique(Named, FindAll(rom.children, tag));
    MergeNamedUnique(Entries(parent, tag), Entries(rom, tag));
    CollapseOfUnique(Named, MergeNamed(Entries(parent, tag), Entries(rom, tag)));
  }

  lemma MergedTag(parent: Element, rom: Element, tag: string)
    ensures forall e <- MergeNamed(Entries(parent, tag), Entries(rom, tag)) :: e.tag == tag
  {
    OverlayEachTag(Entries(parent, tag), Entries(rom, tag), tag);
    RestMembers(Entries(parent, tag), Entries(rom, tag));
  }

  // ------------------------------------------------------------------
  // The nearest rom wins
  // ------------------------------------------------------------------

  /**
   Something a rom may say: an attribute of a scaling, or, of a table or of a table nested in it
   to any depth, an attribute or a whole child. A nested table is named by its normalised type.
   */
  datatype Probe =
    | InTable(name: string, path: seq<string>, ask: Question)
    | ScalingAttribute(name: string, attr: string)

  datatype Question = AttributeOf(attr: string) | ChildWith(tag: string)

  datatype Answer = Text(s: string) | Whole(e: Element)

  function Attribute(e: Option<Element>, attr: string): Option<Answer> {
    if e.Some? && attr in e.value.attrs then Some(Text(e.value.attrs[attr])) else None
  }

  function Entry(rom: Element, tag: string, name: string): Option<Element> {
    Lookup(Named, Entries(rom, tag), NameKey(name))
  }

  function ChildOf(e: Option<Element>, k: Key): Option<Element> {
    if e.Some? then Lookup(Children, Dict(e.value), k) else None
  }

  /** The nested table at the end of a path. */
  function Descend(e: Option<Element>, path: seq<string>): Option<Element>
    decreases |path|
  {
    if path == [] then e else Descend(ChildOf(e, TableKey(path[0])), path[1..])
  }

  function Answered(e: Option<Element>, ask: Question): Option<Answer> {
    match ask
    case AttributeOf(attr) => Attribute(e, attr)
    case ChildWith(tag) =>
      var c := ChildOf(e, TagKey(tag));
      if c.Some? then Some(Whole(c.value)) else None
  }

  function Read(p: Probe, rom: Element): Option<Answer> {
    match p
    case InTable(name, path, ask) => Answered(Descend(Entry(rom, "table", name), path), ask)
    case ScalingAttribute(name, attr) => Attribute(Entry(rom, "scaling", name), attr)
  }

  function OrElse<T>(a: Option<T>, b: Option<T>): Option<T> {
    if a.Some? then a else b
  }

  lemma EntryTag(rom: Element, tag: string, name: string)
    ensures Entry(rom, tag, name).Some? ==> Entry(rom, tag, name).value.tag == tag
  {
  }

  /** A table's child after an overlay, axis by axis and tag by tag. */
  lemma OverlaidChild(p: Element, c: Element, k: Key)
    ensures var pk, ck := ChildOf(Some(p), k), ChildOf(Some(c), k);
      ChildOf(Some(OverlayTable(p, c)), k) ==
        if pk.None? then ck
        else if ck.None? then pk
        else if k.TableKey? then Some(OverlayTable(pk.value, ck.value))
        else ck
  {
    OverlayDict(p, c);
    MergeLookup(Dict(p), Dict(c), k);
  }

  /** A merged entry: the overlay where both roms have it, else whichever has it. */
  function Merged(p: Option<Element>, c: Option<Element>): Option<Element> {
    if p.None? then c else if c.None? then p else Some(OverlayNamed(p.value, c.value))
  }

  lemma MergedEntry(parent: Element, rom: Element, tag: string, name: string)
    requires tag == "table" || tag == "scaling"
    ensures Entry(MergeRom(parent, rom), tag, name) == Merged(Entry(parent, tag, name), Entry(rom, tag, name))
  {
    MergedEntries(parent, rom, tag);
    MergeNamedLookup(Entries(parent, tag), Entries(rom, tag), NameKey(name));
  }

  lemma MergedAttribute(p: Option<Element>, c: Option<Element>, attr: string)
    ensures Attribute(Merged(p, c), attr) == OrElse(Attribute(c, attr), Attribute(p, attr))
  {
  }

  ghost predicate IsTable(e: Option<Element>) {
    e.Some? ==> e.value.tag == "table"
  }

  /** One step down: a nested table of the overlay is the overlay of the nested tables. */
  lemma MergedChild(p: Option<Element>, c: Option<Element>, k: Key)
    requires IsTable(p) && IsTable(c)
    ensures k.TagKey? ==> ChildOf(Merged(p, c), k) == OrElse(ChildOf(c, k), ChildOf(p, k))
    ensures k.TableKey? ==> ChildOf(Merged(p, c), k) == Merged(ChildOf(p, k), ChildOf(c, k))
    ensures k.TableKey? ==> IsTable(ChildOf(p, k)) && IsTable(ChildOf(c, k))
  {
    if p.Some? && c.Some? {
      OverlaidChild(p.value, c.value, k);
    }
  }

  /** Any number of steps down. */
  lemma {:induction false} MergedDescend(p: Option<Element>, c: Option<Element>, path: seq<string>)
    requires IsTable(p) && IsTable(c)
    ensures Descend(Merged(p, c), path) == Merged(Descend(p, path), Descend(c, path))
    ensures IsTable(Descend(p, path)) && IsTable(Descend(c, path))
    decreases |path|
  {
    hide ChildOf, Merged;
    if path != [] {
      var k := TableKey(path[0]);
      MergedChild(p, c, k);
      MergedDescend(ChildOf(p, k), ChildOf(c, k), path[1..]);
    }
  }

  lemma MergedAnswer(p: Option<Element>, c: Option<Element>, ask: Question)
    requires IsTable(p) && IsTable(c)
    ensures Answered(Merged(p, c), ask) == OrElse(Answered(c, ask), Answered(p, ask))
  {
    match ask
    case AttributeOf(attr) => MergedAttribute(p, c, attr);
    case ChildWith(tag) => MergedChild(p, c, TagKey(tag));
  }

  /** One merge: what the child says stands, and what it leaves open comes from the parent. */
  lemma MergeReads(q: Probe, parent: Element, rom: Element)
    ensures Read(q, MergeRom(parent, rom)) == OrElse(Read(q, rom), Read(q, parent))
  {
    var tag := if q.ScalingAttribute? then "scaling" else "table";
    MergedEntry(parent, rom, tag, q.name);
    EntryTag(parent, tag, q.name);
    EntryTag(rom, tag, q.name);
    var p, c := Entry(parent, tag, q.name), Entry(rom, tag, q.name);
    match q
    case ScalingAttribute(_, attr) => MergedAttribute(p, c, attr);
    case InTable(_, path, ask) =>
      MergedDescend(p, c, path);
      MergedAnswer(Descend(p, path), Descend(c, path), ask);
  }

  /** The rom and its ancestors, nearest first; none if the chain comes back to an xmlid. */
  ghost function Chain(rom: Element, roms: Index, visiting: set<string>): Option<seq<Element>>
    decreases Remaining(rom, roms, visiting)
  {
    var id := RomXmlid(rom);
    if id in visiting then None
    else
      match Parent(rom, roms)
      case None => Some([rom])
      case Some(parent) =>
        assert id in Remaining(rom, roms, visiting) && id !in Remaining(parent, roms, visiting + {id});
        assert Remaining(parent, roms, visiting + {id}) <= Remaining(rom, roms, visiting);
        var above := Chain(parent, roms, visiting + {id});
        if above.None? then None else Some([rom] + above.value)
  }

  /** The chain is exactly the ancestry. */
  lemma {:induction false} ChainIsAncestry(rom: Element, roms: Index, visiting: set<string>, n: nat)
    requires Chain(rom, roms, visiting).Some?
    ensures var chain := Chain(rom, roms, visiting).value;
      Ancestor(rom, roms, n) == if n < |chain| then Some(chain[n]) else None
    decreases n
  {
    hide Parent;
    var up := Parent(rom, roms);
    if up.Some? && n > 0 {
      ChainIsAncestry(up.value, roms, visiting + {RomXmlid(rom)}, n - 1);
    }
  }

  ghost function Nearest(q: Probe, chain: seq<Element>): Option<Answer> {
    if chain == [] then None else OrElse(Read(q, chain[0]), Nearest(q, chain[1..]))
  }

  /**
   Every scaling attribute, and every attribute and child of a table or of a table nested in it
   to any depth, comes from the nearest rom of the chain that has it; what no rom has, the
   flattened rom lacks.
   */
  lemma {:induction false} NearestWins(q: Probe, rom: Element, roms: Index, visiting: set<string>)
    ensures Flatten(rom, roms, visiting).Ok? <==> Chain(rom, roms, visiting).Some?
    ensures Flatten(rom, roms, visiting).Ok? ==>
      Read(q, Flatten(rom, roms, visiting).value) == Nearest(q, Chain(rom, roms, visiting).value)
    decreases Remaining(rom, roms, visiting)
  {
    var id := RomXmlid(rom);
    if id !in visiting {
      match Parent(rom, roms)
      case None =>
        assert [rom][1..] == [];
      case Some(parent) =>
        assert id in Remaining(rom, roms, visiting) && id !in Remaining(parent, roms, visiting + {id});
        assert Remaining(parent, roms, visiting + {id}) <= Remaining(rom, roms, visiting);
        NearestWins(q, parent, roms, visiting + {id});
        var flat, above := Flatten(parent, roms, visiting + {id}), Chain(parent, roms, visiting + {id});
        if flat.Ok? {
          MergeReads(q, flat.value, rom);
          assert ([rom] + above.value)[1..] == above.value;
        }
    }
  }

  // ------------------------------------------------------------------
  // romid
  // ------------------------------------------------------------------

  /** The text of the last field with that tag. */
  function LastText(fs: seq<Element>, tag: string): Option<Option<string>> {
    if fs == [] then None
    else if fs[|fs| - 1].tag == tag then Some(fs[|fs| - 1].text)
    else LastText(fs[..|fs| - 1], tag)
  }

  function FirstText(fs: seq<Element>, tag: string): Option<Option<string>> {
    var f := Find(fs, tag);
    if f.Some? then Some(f.value.text) else None
  }

  lemma {:induction false} SetFieldText(s: seq<Element>, f: Element, tag: string)
    ensures FirstText(SetField(s, f), tag) == if f.tag == tag then Some(f.text) else FirstText(s, tag)
  {
    if s != [] && s[0].tag != f.tag {
      SetFieldText(s[1..], f, tag);
      assert SetField(s, f)[1..] == SetField(s[1..], f);
    }
  }

  lemma {:induction false} SetFieldsText(s: seq<Element>, fs: seq<Element>, tag: string)
    ensures FirstText(SetFields(s, fs), tag) == OrElse(LastText(fs, tag), FirstText(s, tag))
  {
    if fs != [] {
      SetFieldsText(s, fs[..|fs| - 1], tag);
      SetFieldText(SetFields(s, fs[..|fs| - 1]), fs[|fs| - 1], tag);
    }
  }

  lemma {:induction false} LeavesText(s: seq<Element>, tag: string)
    ensures FirstText(Leaves(s), tag) == FirstText(s, tag)
  {
    if s != [] {
      LeavesText(s[1..], tag);
      assert Leaves(s)[1..] == Leaves(s[1..]);
    }
  }

  function RomIdFields(rom: Element): Option<seq<Element>> {
    var id := Find(rom.children, "romid");
    if id.Some? then Some(id.value.children) else None
  }

  /**
   The merged romid exists exactly when the child has one; each of its fields is the child's if
   it has the field, else the parent's.
   */
  lemma RomIdMerged(parent: Element, rom: Element, tag: string)
    ensures RomIdFields(MergeRom(parent, rom)).Some? <==> RomIdFields(rom).Some?
    ensures RomIdFields(rom).Some? ==>
      var above := RomIdFields(parent);
      FirstText(RomIdFields(MergeRom(parent, rom)).value, tag) ==
        OrElse(LastText(RomIdFields(rom).value, tag), if above.Some? then FirstText(above.value, tag) else None)
  {
    var ids := MergeRomId(parent, rom);
    var others := MergeNamed(Entries(parent, "table"), Entries(rom, "table")) +
      MergeNamed(Entries(parent, "scaling"), Entries(rom, "scaling"));
    assert MergeRom(parent, rom).children == ids + others;
    if ids == [] {
      MergedTag(parent, rom, "table");
      MergedTag(parent, rom, "scaling");
      assert ids + others == others;
    } else {
      var above := RomIdFields(parent);
      LeavesText(if above.Some? then above.value else [], tag);
      SetFieldsText(if above.Some? then Leaves(above.value) else [], RomIdFields(rom).value, tag);
      assert (ids + others)[0] == ids[0];
    }
  }
}

/** The growing axis table of a pack: `_find_or_register_axis` and the axis part of `_extract_table`. */
module AxisRegistry {
  import opened Basics

  datatype Axis = Axis(id: string, name: string, unit: string, kind: string,
                       address: int, length: nat, dataType: string, scaling: string)

  datatype Error = CannotDisambiguate(id: string)

  predicate ContentMatch(a: Axis, b: Axis) {
    a.length == b.length && a.address == b.address && a.dataType == b.dataType && a.scaling == b.scaling
  }

  function Digit(d: nat): char
    requires d < 10
  {
    "0123456789"[d]
  }

  /** Decimal notation. */
  function Decimal(n: nat): string {
    if n < 10 then [Digit(n)] else Decimal(n / 10) + [Digit(n % 10)]
  }

  const ATTEMPTS: nat := 99

  /** The `k`-th alternative id: first `_lenN`, then `_lenN_v2` to `_lenN_v99`. */
  function Candidate(axis: Axis, k: nat): string {
    axis.id + "_len" + Decimal(axis.length) + if k == 0 then "" else "_v" + Decimal(k + 1)
  }

  /** The first entry with that id. */
  function ById(axes: seq<Axis>, id: string): (r: Option<Axis>)
    ensures r.Some? ==> r.value in axes && r.value.id == id
    ensures r.None? ==> forall a <- axes :: a.id != id
  {
    if axes == [] then None else if axes[0].id == id then Some(axes[0]) else ById(axes[1..], id)
  }

  predicate DistinctIds(axes: seq<Axis>) {
    forall i, j :: 0 <= i < j < |axes| ==> axes[i].id != axes[j].id
  }

  /** Where an axis ends up: its id, and the entry to append if it is new. */
  datatype Outcome =
    | Existing(id: string)
    | Added(entry: Axis)
    | Failed(id: string)

  /** Free, taken by the same content, or taken by something else. */
  function Try(axes: seq<Axis>, axis: Axis, id: string): Option<Outcome> {
    match ById(axes, id)
    case None => Some(Added(axis.(id := id)))
    case Some(a) => if ContentMatch(a, axis) then Some(Existing(id)) else None
  }

  /** The alternatives from the `k`-th on. */
  function Disambiguate(axes: seq<Axis>, axis: Axis, k: nat): Outcome
    decreases ATTEMPTS - k
  {
    if k >= ATTEMPTS then Failed(axis.id)
    else match Try(axes, axis, Candidate(axis, k))
      case Some(o) => o
      case None => Disambiguate(axes, axis, k + 1)
  }

  function Resolve(axes: seq<Axis>, axis: Axis): Outcome {
    match Try(axes, axis, axis.id)
    case Some(o) => o
    case None => Disambiguate(axes, axis, 0)
  }

  /** The table after the outcome. */
  function Grown(axes: seq<Axis>, o: Outcome): seq<Axis> {
    if o.Added? then axes + [o.entry] else axes
  }

  function IdOf(o: Outcome): string {
    if o.Added? then o.entry.id else o.id
  }

  // ------------------------------------------------------------------
  // Referential integrity
  // ------------------------------------------------------------------

  /** `id` names an axis with the requested length, address, data type and scaling. */
  predicate Names(axes: seq<Axis>, id: string, axis: Axis) {
    ById(axes, id).Some? &&
    var a := ById(axes, id).value;
    a.length == axis.length && a.address == axis.address && a.dataType == axis.dataType && a.scaling == axis.scaling
  }

  lemma {:induction false} ByIdAppend(a: seq<Axis>, b: seq<Axis>, id: string)
    ensures ById(a + b, id) == if ById(a, id).Some? then ById(a, id) else ById(b, id)
  {
    if a == [] {
      assert a + b == b;
    } else {
      ByIdAppend(a[1..], b, id);
      assert (a + b)[0] == a[0] && (a + b)[1..] == a[1..] + b;
    }
  }

  lemma DistinctSnoc(axes: seq<Axis>, a: Axis)
    requires DistinctIds(axes) && ById(axes, a.id).None?
    ensures DistinctIds(axes + [a])
  {
    assert forall i :: 0 <= i < |axes| ==> axes[i] in axes;
  }

  lemma TrySettles(axes: seq<Axis>, axis: Axis, id: string)
    requires DistinctIds(axes) && Try(axes, axis, id).Some?
    ensures var o := Try(axes, axis, id).value;
      DistinctIds(Grown(axes, o)) && IdOf(o) == id && !o.Failed? && Names(Grown(axes, o), id, axis)
  {
    var o := Try(axes, axis, id).value;
    if o.Added? {
      DistinctSnoc(axes, o.entry);
      ByIdAppend(axes, [o.entry], id);
    }
  }

  lemma {:induction false} DisambiguateSettles(axes: seq<Axis>, axis: Axis, k: nat)
    requires DistinctIds(axes)
    ensures var o := Disambiguate(axes, axis, k);
      DistinctIds(Grown(axes, o)) && (!o.Failed? ==> Names(Grown(axes, o), IdOf(o), axis))
    decreases ATTEMPTS - k
  {
    if k < ATTEMPTS {
      if Try(axes, axis, Candidate(axis, k)).Some? {
        TrySettles(axes, axis, Candidate(axis, k));
      } else {
        DisambiguateSettles(axes, axis, k + 1);
      }
    }
  }

  /** No alternative from the `k`-th on is usable. */
  ghost predicate AllTaken(axes: seq<Axis>, axis: Axis, k: nat) {
    forall n: nat :: k <= n < 99 ==> Taken(axes, axis, Candidate(axis, n))
  }

  lemma {:induction false} FailureExact(axes: seq<Axis>, axis: Axis, k: nat)
    ensures Disambiguate(axes, axis, k).Failed? <==> AllTaken(axes, axis, k)
    decreases ATTEMPTS - k
  {
    if k < ATTEMPTS {
      FailureExact(axes, axis, k + 1);
      assert Try(axes, axis, Candidate(axis, k)).None? <==> Taken(axes, axis, Candidate(axis, k));
      assert AllTaken(axes, axis, k) <==> Taken(axes, axis, Candidate(axis, k)) && AllTaken(axes, axis, k + 1);
    }
  }

  /** The id is taken by an axis that differs in length, address, data type or scaling. */
  predicate Taken(axes: seq<Axis>, axis: Axis, id: string) {
    ById(axes, id).Some? &&
    var a := ById(axes, id).value;
    a.length != axis.length || a.address != axis.address || a.dataType != axis.dataType || a.scaling != axis.scaling
  }

  /**
   Registration keeps ids distinct, only ever appends, and returns an id that names an axis with
   the requested length, address, data type and scaling; it fails exactly when the id and all 99
   alternatives are taken by axes that differ in one of these.
   */
  lemma Registered(axes: seq<Axis>, axis: Axis)
    requires DistinctIds(axes)
    ensures var o := Resolve(axes, axis);
      && axes <= Grown(axes, o) && DistinctIds(Grown(axes, o))
      && (!o.Failed? ==> Names(Grown(axes, o), IdOf(o), axis))
      && (o.Failed? <==> Taken(axes, axis, axis.id) && AllTaken(axes, axis, 0))
  {
    if Try(axes, axis, axis.id).Some? {
      TrySettles(axes, axis, axis.id);
    } else {
      DisambiguateSettles(axes, axis, 0);
      FailureExact(axes, axis, 0);
    }
  }

  /** The number a digit string stands for. */
  function Value(s: string): int {
    if s == [] then 0 else Value(s[..|s| - 1]) * 10 + (s[|s| - 1] as int - '0' as int)
  }

  lemma {:induction false} DecimalReads(n: nat)
    ensures Decimal(n) != [] && Value(Decimal(n)) == n
    ensures Decimal(n)[0] == '0' <==> n == 0
  {
    var s := Decimal(n);
    if n >= 10 {
      DecimalReads(n / 10);
      assert s[..|s| - 1] == Decimal(n / 10) && s[0] == Decimal(n / 10)[0];
    } else {
      assert s[..0] == [] && Value([]) == 0;
    }
  }

  /** The alternatives of an id are distinct, and none is the id itself. */
  lemma AlternativesDiffer(axis: Axis, j: nat, k: nat)
    ensures Candidate(axis, k) != axis.id
    ensures Candidate(axis, j) == Candidate(axis, k) <==> j == k
  {
    hide Decimal;
    DecimalReads(j + 1);
    DecimalReads(k + 1);
    var stem := axis.id + "_len" + Decimal(axis.length);
    var a, b := Candidate(axis, j)[|stem|..], Candidate(axis, k)[|stem|..];
    assert a == (if j == 0 then "" else "_v" + Decimal(j + 1));
    assert b == (if k == 0 then "" else "_v" + Decimal(k + 1));
    if j > 0 && k > 0 {
      assert a[2..] == Decimal(j + 1) && b[2..] == Decimal(k + 1);
    }
  }

  /** The first alternative from the `k`-th on that is not taken, found again or filled. */
  ghost predicate SettledAt(axes: seq<Axis>, axis: Axis, o: Outcome, k: nat, n: nat) {
    var id := Candidate(axis, n);
    && k <= n < 99
    && (forall j: nat :: k <= j < n ==> Taken(axes, axis, Candidate(axis, j)))
    && !Taken(axes, axis, id)
    && o == if Names(axes, id, axis) then Existing(id) else Added(axis.(id := id))
  }

  lemma {:induction false} DisambiguateExact(axes: seq<Axis>, axis: Axis, k: nat) returns (n: nat)
    requires !Disambiguate(axes, axis, k).Failed?
    ensures SettledAt(axes, axis, Disambiguate(axes, axis, k), k, n)
    decreases ATTEMPTS - k
  {
    hide Candidate;
    if Try(axes, axis, Candidate(axis, k)).Some? {
      n := k;
    } else {
      n := DisambiguateExact(axes, axis, k + 1);
      assert Taken(axes, axis, Candidate(axis, k));
    }
  }

  /**
   Where an axis ends up. A free id is given to it unchanged; an id that names an axis with the
   same length, address, data type and scaling is reused and nothing added; an id taken by any
   other axis is never returned, but the first alternative that is not taken.
   */
  lemma ResolvedExactly(axes: seq<Axis>, axis: Axis)
    ensures var o := Resolve(axes, axis);
      && (ById(axes, axis.id).None? <==> o == Added(axis))
      && (Names(axes, axis.id, axis) <==> o == Existing(axis.id))
      && (Taken(axes, axis, axis.id) <==> o.Failed? || exists n :: SettledAt(axes, axis, o, 0, n))
      && (Taken(axes, axis, axis.id) ==> o.Failed? || IdOf(o) != axis.id)
  {
    var o := Resolve(axes, axis);
    forall n: nat
      ensures Candidate(axis, n) != axis.id
    {
      AlternativesDiffer(axis, n, n);
    }
    hide Candidate;
    if Taken(axes, axis, axis.id) {
      if !o.Failed? {
        var n := DisambiguateExact(axes, axis, 0);
      }
    } else {
      assert axis.(id := axis.id) == axis;
    }
  }

  /** A "rpm" of 8 values is known: one of 20 at another address becomes "rpm_len20", and is found there. */
  lemma LengthsKeptApart()
    ensures
      var short := Axis("rpm", "RPM", "rpm", "x", 0x1000, 8, "uint16_be", "rpm");
      var long := Axis("rpm", "RPM", "rpm", "x", 0x2000, 20, "uint16_be", "rpm");
      && Resolve([short], long) == Added(long.(id := "rpm_len20"))
      && Resolve([short, long.(id := "rpm_len20")], long) == Existing("rpm_len20")
  {
    assert Decimal(20) == "2" + "0" == "20";
    var short := Axis("rpm", "RPM", "rpm", "x", 0x1000, 8, "uint16_be", "rpm");
    var long := Axis("rpm", "RPM", "rpm", "x", 0x2000, 20, "uint16_be", "rpm");
    assert Candidate(long, 0) == "rpm" + "_len" + "20" + "" == "rpm_len20";
    var both := [short, long.(id := "rpm_len20")];
    assert both[1..] == [long.(id := "rpm_len20")];
  }

  /** An id that is taken, or names the axis, stays so as the table grows. */
  lemma TryStable(axes: seq<Axis>, more: seq<Axis>, axis: Axis, id: string)
    requires axes <= more && ById(axes, id).Some?
    ensures Try(more, axis, id) == Try(axes, axis, id)
  {
    assert more == axes + more[|axes|..];
    ByIdAppend(axes, more[|axes|..], id);
  }

  lemma {:induction false} DisambiguateStable(axes: seq<Axis>, more: seq<Axis>, axis: Axis, k: nat)
    requires DistinctIds(axes) && !Disambiguate(axes, axis, k).Failed?
    requires Grown(axes, Disambiguate(axes, axis, k)) <= more
    ensures Disambiguate(more, axis, k) == Existing(IdOf(Disambiguate(axes, axis, k)))
    decreases ATTEMPTS - k
  {
    var c, o := Candidate(axis, k), Disambiguate(axes, axis, k);
    if Try(axes, axis, c).Some? {
      TrySettles(axes, axis, c);
      TryStable(Grown(axes, o), more, axis, c);
    } else {
      TryStable(axes, more, axis, c);
      DisambiguateStable(axes, more, axis, k + 1);
    }
  }

  /** However the table grows afterwards, registering the same axis again finds it and adds nothing. */
  lemma ReRegistered(axes: seq<Axis>, more: seq<Axis>, axis: Axis)
    requires DistinctIds(axes) && !Resolve(axes, axis).Failed?
    requires Grown(axes, Resolve(axes, axis)) <= more
    ensures Resolve(more, axis) == Existing(IdOf(Resolve(axes, axis)))
  {
    var o := Resolve(axes, axis);
    if Try(axes, axis, axis.id).Some? {
      TrySettles(axes, axis, axis.id);
      TryStable(Grown(axes, o), more, axis, axis.id);
    } else {
      TryStable(axes, more, axis, axis.id);
      DisambiguateStable(axes, more, axis, 0);
    }
  }

  // ------------------------------------------------------------------
  // The pack
  // ------------------------------------------------------------------

  /** A nested axis element: on which side it stands, and its record if it has storage. */
  datatype Side = XSide | YSide

  datatype AxisChild = AxisChild(side: Side, axis: Option<Axis>)

  datatype Table = Table(id: string, dimensions: nat, axisX: string, axisY: string)

  datatype Warning = NoAxis(table: string) | NoYAxis(table: string)

  /** RomRaider's type counts the value dimension; an unknown type is one-dimensional. */
  function DeclaredDimensions(ttype: string): nat {
    if EndsWith(ttype, "3D") then 2
    else if EndsWith(ttype, "2D") then 1
    else if EndsWith(ttype, "1D") then 0
    else 1
  }

  predicate EndsWith(s: string, suffix: string) {
    |s| >= |suffix| && s[|s| - |suffix|..] == suffix
  }

  /** Only the end of the type counts. */
  lemma DimensionsRead(front: string, ttype: string)
    ensures DeclaredDimensions(front + "3D") == 2
    ensures DeclaredDimensions(front + "2D") == 1
    ensures DeclaredDimensions(front + "1D") == 0
    ensures (forall p :: ttype != p + "3D" && ttype != p + "2D" && ttype != p + "1D") ==> DeclaredDimensions(ttype) == 1
  {
    EndsWithExact(front + "3D", front);
    EndsWithExact(front + "2D", front);
    EndsWithExact(front + "1D", front);
    if |ttype| >= 2 {
      EndsWithExact(ttype, ttype[..|ttype| - 2]);
      assert ttype == ttype[..|ttype| - 2] + ttype[|ttype| - 2..];
    }
  }

  lemma EndsWithExact(s: string, front: string)
    requires |s| == |front| + 2 && s[..|front|] == front
    ensures forall end: string :: |end| == 2 ==> (EndsWith(s, end) <==> s == front + end)
  {
    assert s == front + s[|front|..];
  }

  /** Every axis a table's dimensions call for resolves. */
  predicate Resolves(axes: seq<Axis>, t: Table) {
    && (t.dimensions >= 1 ==> ById(axes, t.axisX).Some?)
    && (t.dimensions >= 2 ==> ById(axes, t.axisY).Some?)
  }

  /** Some entry of the axis table has that id. */
  predicate HasAxis(axes: seq<Axis>, id: string) {
    exists a <- axes :: a.id == id
  }

  lemma ResolvesStable(axes: seq<Axis>, more: seq<Axis>, t: Table)
    requires axes <= more && Resolves(axes, t)
    ensures Resolves(more, t)
  {
    assert more == axes + more[|axes|..];
    ByIdAppend(axes, more[|axes|..], t.axisX);
    ByIdAppend(axes, more[|axes|..], t.axisY);
  }

  lemma AllResolve(axes: seq<Axis>, more: seq<Axis>, tables: seq<Table>)
    requires axes <= more && forall t <- tables :: Resolves(axes, t)
    ensures forall t <- tables :: Resolves(more, t)
  {
    forall t | t in tables
      ensures Resolves(more, t)
    {
      ResolvesStable(axes, more, t);
    }
  }

  class Pack {
    var axes: seq<Axis>
    var tables: seq<Table>
    var warnings: seq<Warning>

    predicate Valid()
      reads this
    {
      DistinctIds(axes) && forall t <- tables :: Resolves(axes, t)
    }

    constructor ()
      ensures Valid() && axes == [] && tables == [] && warnings == []
    {
      axes, tables, warnings := [], [], [];
    }

    method FindOrRegister(axis: Axis) returns (r: Result<(string, bool), Error>)
      requires Valid()
      modifies this`axes
      ensures Valid()
      ensures axes == Grown(old(axes), Resolve(old(axes), axis))
      ensures var o := Resolve(old(axes), axis);
        r == if o.Failed? then Err(CannotDisambiguate(axis.id)) else Ok((IdOf(o), o.Added?))
    {
      hide Candidate, ContentMatch, Resolves, DistinctIds, ById;
      ghost var before := axes;
      Registered(axes, axis);
      AllResolve(axes, Grown(axes, Resolve(axes, axis)), tables);
      var existing := ById(axes, axis.id);
      if existing.None? {
        axes := axes + [axis];
        return Ok((axis.id, true));
      }
      if ContentMatch(existing.value, axis) {
        return Ok((axis.id, false));
      }
      var k := 0;
      while k < ATTEMPTS
        invariant 0 <= k <= ATTEMPTS && axes == before
        invariant Resolve(before, axis) == Disambiguate(before, axis, k)
      {
        var candidate := Candidate(axis, k);
        var found := ById(axes, candidate);
        if found.None? {
          axes := axes + [axis.(id := candidate)];
          return Ok((candidate, true));
        }
        if ContentMatch(found.value, axis) {
          return Ok((candidate, false));
        }
        k := k + 1;
      }
      r := Err(CannotDisambiguate(axis.id));
    }
  
    /** The axis loop of `_extract_table`. */
    method RegisterAxes(children: seq<AxisChild>) returns (r: Result<(string, string), Error>)
      requires Valid() && AllNamed(children)
      modifies this`axes
      ensures Valid() && old(axes) <= axes
      ensures var s := WalkSides(Sides(old(axes), "", "", false), children);
        axes == s.axes && (r.Err? <==> s.failed) && (r.Ok? ==> r.value == (s.x, s.y))
    {
      ghost var s := Sides(axes, "", "", false);
      var x, y := "", "";
      for i := 0 to |children|
        invariant Valid() && old(axes) <= axes
        invariant s == Sides(axes, x, y, false)
        invariant WalkSides(Sides(old(axes), "", "", false), children) == WalkSides(s, children[i..])
      {
        var child := children[i];
        assert children[i..][0] == child && children[i..][1..] == children[i + 1..];
        s := OnChild(s, child);
        if child.axis.Some? {
          Registered(axes, child.axis.value);
          var reg := FindOrRegister(child.axis.value);
          if reg.Err? {
            WalkFailed(s, children[i + 1..]);
            return Err(reg.error);
          }
          if child.side.XSide? {
            x := reg.value.0;
          } else {
            y := reg.value.0;
          }
        }
      }
      r := Ok((x, y));
    }

    /**
     `_extract_table` from the axis loop on: a table that names an axis without storage is demoted,
     so every table of the pack resolves the axes its dimensions call for.
     */
    method ExtractTable(id: string, ttype: string, children: seq<AxisChild>) returns (r: Result<(), Error>)
      requires Valid() && AllNamed(children)
      modifies this
      ensures Valid() && old(axes) <= axes && old(tables) <= tables
      ensures forall t <- tables ::
        (t.dimensions >= 1 ==> HasAxis(axes, t.axisX)) && (t.dimensions >= 2 ==> HasAxis(axes, t.axisY))
      ensures var s := WalkSides(Sides(old(axes), "", "", false), children);
        && axes == s.axes
        && (r.Err? <==> s.failed)
        && (r.Err? ==> tables == old(tables) && warnings == old(warnings))
        && (r.Ok? ==> tables == old(tables) + [Settled(id, DeclaredDimensions(ttype), s.x, s.y).0]
                      && warnings == old(warnings) + Settled(id, DeclaredDimensions(ttype), s.x, s.y).1)
    {
      var dims := DeclaredDimensions(ttype);
      ghost var before := axes;
      SidesSound(Sides(axes, "", "", false), children);
      var reg := RegisterAxes(children);
      if reg.Err? {
        return Err(reg.error);
      }
      var (x, y) := reg.value;
      if dims == 1 && x == "" && y != "" {
        x, y := y, "";
      }
      if dims >= 1 && x == "" {
        warnings := warnings + [NoAxis(id)];
        dims, y := 0, "";
      } else if dims >= 2 && y == "" {
        warnings := warnings + [NoYAxis(id)];
        dims := 1;
      }
      tables := tables + [Table(id, dims, x, y)];
      r := Ok(());
    }
  }

  predicate AllNamed(children: seq<AxisChild>) {
    forall c <- children :: c.axis.Some? ==> c.axis.value.id != ""
  }

  /** The axis loop's variables: the table, the last id on each side, and whether it raised. */
  datatype Sides = Sides(axes: seq<Axis>, x: string, y: string, failed: bool)

  function OnChild(s: Sides, c: AxisChild): Sides {
    if s.failed || c.axis.None? then s
    else
      var o := Resolve(s.axes, c.axis.value);
      var axes := Grown(s.axes, o);
      if o.Failed? then Sides(axes, s.x, s.y, true)
      else if c.side.XSide? then Sides(axes, IdOf(o), s.y, false)
      else Sides(axes, s.x, IdOf(o), false)
  }

  function WalkSides(s: Sides, children: seq<AxisChild>): Sides
    decreases |children|
  {
    if children == [] then s else WalkSides(OnChild(s, children[0]), children[1..])
  }

  lemma {:induction false} WalkFailed(s: Sides, children: seq<AxisChild>)
    requires s.failed
    ensures WalkSides(s, children) == s
    decreases |children|
  {
    if children != [] {
      WalkFailed(s, children[1..]);
    }
  }

  /** The last child with storage on a side. */
  function LastOn(side: Side, children: seq<AxisChild>): Option<Axis> {
    if children == [] then None
    else if LastOn(side, children[1..]).Some? then LastOn(side, children[1..])
    else if children[0].side == side then children[0].axis
    else None
  }

  /** What the loop ends with on one side: the id found before it, or that of the side's last axis. */
  predicate SideSettled(id: string, axes: seq<Axis>, last: Option<Axis>, before: string) {
    match last
    case None => id == before
    case Some(axis) => id != "" && Names(axes, id, axis)
  }

  lemma NamesStable(axes: seq<Axis>, more: seq<Axis>, id: string, axis: Axis)
    requires axes <= more && Names(axes, id, axis)
    ensures Names(more, id, axis)
  {
    assert more == axes + more[|axes|..];
    ByIdAppend(axes, more[|axes|..], id);
  }

  /** Each side ends up with an id that names an axis of the content its last child asked for. */
  lemma {:induction false} SidesSound(s: Sides, children: seq<AxisChild>)
    requires DistinctIds(s.axes) && AllNamed(children)
    ensures var s' := WalkSides(s, children);
      && DistinctIds(s'.axes) && s.axes <= s'.axes
      && (!s'.failed ==> SideSettled(s'.x, s'.axes, LastOn(XSide, children), s.x))
      && (!s'.failed ==> SideSettled(s'.y, s'.axes, LastOn(YSide, children), s.y))
    decreases |children|
  {
    if children != [] {
      var c := children[0];
      assert c in children && AllNamed(children[1..]);
      var s1 := OnChild(s, c);
      if c.axis.Some? {
        Registered(s.axes, c.axis.value);
        NonEmptyId(s.axes, c.axis.value);
      }
      SidesSound(s1, children[1..]);
      var s' := WalkSides(s1, children[1..]);
      if s.failed {
        WalkFailed(s, children);
      } else if !s'.failed && c.axis.Some? {
        if s1.failed {
          WalkFailed(s1, children[1..]);
        } else {
          NamesStable(s1.axes, s'.axes, if c.side.XSide? then s1.x else s1.y, c.axis.value);
        }
      }
    }
  }

  /** Dimensions and axis ids after demotion, with the warnings it raises. */
  function Settled(id: string, dims: nat, x: string, y: string): (Table, seq<Warning>) {
    if dims == 0 then (Table(id, 0, x, y), [])
    else if x == "" && (y == "" || dims >= 2) then (Table(id, 0, "", ""), [NoAxis(id)])
    else if dims == 1 then (if x == "" then Table(id, 1, y, "") else Table(id, 1, x, y), [])
    else if y == "" then (Table(id, 1, x, ""), [NoYAxis(id)])
    else (Table(id, dims, x, y), [])
  }

  /** Registered ids are never empty: `_slugify` returns none, and alternatives only extend. */
  lemma NonEmptyId(axes: seq<Axis>, axis: Axis)
    requires axis.id != ""
    ensures !Resolve(axes, axis).Failed? ==> IdOf(Resolve(axes, axis)) != ""
  {
    NonEmptyCandidate(axes, axis, 0);
  }

  lemma {:induction false} NonEmptyCandidate(axes: seq<Axis>, axis: Axis, k: nat)
    requires axis.id != ""
    ensures IdOf(Disambiguate(axes, axis, k)) != ""
    decreases ATTEMPTS - k
  {
    if k < ATTEMPTS {
      NonEmptyCandidate(axes, axis, k + 1);
    }
  }

  /**
   The extracted table's axes are the source's: each resolves to the content of the last nested
   axis on its side (a one-dimensional table may take its only axis from the Y side), and the
   declared dimensions stand exactly when the axes they need have storage.
   */
  lemma TableFaithful(axes: seq<Axis>, children: seq<AxisChild>, id: string, dims: nat)
    requires DistinctIds(axes) && AllNamed(children) && dims <= 2
    requires !WalkSides(Sides(axes, "", "", false), children).failed
    ensures
      var s := WalkSides(Sides(axes, "", "", false), children);
      var t := Settled(id, dims, s.x, s.y).0;
      var x, y := LastOn(XSide, children), LastOn(YSide, children);
      && (t.dimensions >= 1 && x.Some? ==> Names(s.axes, t.axisX, x.value))
      && (t.dimensions >= 1 && x.None? ==> dims == 1 && y.Some? && Names(s.axes, t.axisX, y.value))
      && (t.dimensions == 2 ==> y.Some? && Names(s.axes, t.axisY, y.value))
      && (t.dimensions == dims <==>
            dims == 0 || (dims == 1 && (x.Some? || y.Some?)) || (dims == 2 && x.Some? && y.Some?))
  {
    SidesSound(Sides(axes, "", "", false), children);
  }

  /**
   A table keeps an axis id its dimensions do not call for exactly when it is declared scalar and
   has storage on that side, or is declared one-dimensional and has storage on both sides.
   */
  lemma SurplusAxisExactly(axes: seq<Axis>, children: seq<AxisChild>, id: string, ttype: string)
    requires DistinctIds(axes) && AllNamed(children)
    requires !WalkSides(Sides(axes, "", "", false), children).failed
    ensures
      var s := WalkSides(Sides(axes, "", "", false), children);
      var dims := DeclaredDimensions(ttype);
      var t := Settled(id, dims, s.x, s.y).0;
      var x, y := LastOn(XSide, children), LastOn(YSide, children);
      && (t.axisX != "" && t.dimensions < 1 <==> x.Some? && dims == 0)
      && (t.axisY != "" && t.dimensions < 2 <==> y.Some? && (dims == 0 || (dims == 1 && x.Some?)))
  {
    SidesSound(Sides(axes, "", "", false), children);
  }

  /** A "2D" table with storage on both sides: one dimension, two axis ids, no warning. */
  lemma SurplusAxis()
    ensures Settled("boost", DeclaredDimensions("2D"), "rpm", "load") == (Table("boost", 1, "rpm", "load"), [])
  {
    assert "2D"[0..] == "2D" && "2D"[0..] != "3D";
  }
}

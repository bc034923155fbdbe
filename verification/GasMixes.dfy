/**
  The gas mix table of the UDDF formatter: mixes are collected per dive from the header callbacks and
  linked from every tank when the dive ends.
 */
module GasMixes {
  import opened Words
  import opened Wrappers
  import Decimal

  /** Oxygen and helium in permille, as uint16_t. */
  datatype Mix = Mix(o2: nat, he: nat)

  type Mixes = map<string, Mix>

  /** The header callbacks that concern tanks; index is a uint8_t, value an int32_t. */
  datatype Header = TankPressure(index: nat) | O2(value: int, index: nat) | He(value: int, index: nat)

  function MixName(k: nat): string {
    "mix-" + Decimal.Show(k)
  }

  lemma MixNamesDiffer(a: nat, b: nat)
    ensures MixName(a) == MixName(b) ==> a == b
    ensures MixName(a) != "air" && MixName(a) != "ean32" && MixName(a) != "ean36"
  {
    if MixName(a) == MixName(b) {
      assert Decimal.Show(a) == MixName(a)[4..] == MixName(b)[4..] == Decimal.Show(b);
      Decimal.ShowInjective(a, b);
    }
    assert MixName(a)[0] == 'm';
  }

  // ---------------------------------------------------------------- what a dive reports

  /** The mix reported for a tank: the last non-zero value of each gas, None when there was neither. */
  function Reported(hs: seq<Header>, index: nat): Option<Mix> {
    if hs == [] then None
    else
      var before := Reported(hs[..|hs| - 1], index);
      var mix := if before.Some? then before.value else Mix(0, 0);
      match hs[|hs| - 1]
      case TankPressure(_) => before
      case O2(v, i) => if v != 0 && i == index then Some(Mix(v % 0x1_0000, mix.he)) else before
      case He(v, i) => if v != 0 && i == index then Some(Mix(mix.o2, v % 0x1_0000)) else before
  }

  /** Whether a header callback makes sure that a tank node exists. */
  predicate Touches(h: Header, index: nat) {
    h.index == index && (h.TankPressure? || h.value != 0)
  }

  predicate HasTank(hs: seq<Header>, index: nat) {
    exists k :: 0 <= k < |hs| && Touches(hs[k], index)
  }

  lemma LastHeader(hs: seq<Header>, h: Header, index: nat)
    ensures HasTank(hs + [h], index) <==> HasTank(hs, index) || Touches(h, index)
    ensures var before := Reported(hs, index);
      var mix := if before.Some? then before.value else Mix(0, 0);
      Reported(hs + [h], index) ==
        if h.TankPressure? || !Touches(h, index) then before
        else if h.O2? then Some(Mix(h.value % 0x1_0000, mix.he)) else Some(Mix(mix.o2, h.value % 0x1_0000))
  {
    var all := hs + [h];
    assert all[..|all| - 1] == hs && all[|hs|] == h;
    if HasTank(hs, index) {
      var k :| 0 <= k < |hs| && Touches(hs[k], index);
      assert Touches(all[k], index);
    }
    if Touches(h, index) { assert Touches(all[|hs|], index); }
    if HasTank(all, index) {
      var k :| 0 <= k < |all| && Touches(all[k], index);
      assert k < |hs| ==> Touches(hs[k], index);
    }
  }

  /** A callback that reports a gas for the tank: oxygen or helium. */
  predicate ReportsGas(h: Header, index: nat, helium: bool) {
    if helium then h.He? && h.index == index && h.value != 0 else h.O2? && h.index == index && h.value != 0
  }

  predicate ReportsAny(hs: seq<Header>, index: nat) {
    exists k :: 0 <= k < |hs| && (ReportsGas(hs[k], index, false) || ReportsGas(hs[k], index, true))
  }

  /** The permille of a gas after the callbacks: its last report, 0 without one. */
  predicate LastReport(hs: seq<Header>, index: nat, helium: bool, permille: nat) {
    if exists k :: 0 <= k < |hs| && ReportsGas(hs[k], index, helium) then
      exists k :: 0 <= k < |hs| && ReportsGas(hs[k], index, helium) && permille == hs[k].value % 0x1_0000
                  && forall j :: k < j < |hs| ==> !ReportsGas(hs[j], index, helium)
    else permille == 0
  }

  lemma LastReportStep(hs: seq<Header>, h: Header, index: nat, helium: bool, permille: nat)
    ensures ReportsGas(h, index, helium) ==> LastReport(hs + [h], index, helium, h.value % 0x1_0000)
    ensures !ReportsGas(h, index, helium) && LastReport(hs, index, helium, permille) ==>
      LastReport(hs + [h], index, helium, permille)
  {
    var all := hs + [h];
    assert all[|hs|] == h;
    assert forall k :: 0 <= k < |hs| ==> all[k] == hs[k];
  }

  /** The mix of a tank is what the callbacks said last about each gas, and there is none if they said nothing. */
  lemma {:induction false} ReportedExactly(hs: seq<Header>, index: nat)
    ensures Reported(hs, index).Some? <==> ReportsAny(hs, index)
    ensures var mix := if Reported(hs, index).Some? then Reported(hs, index).value else Mix(0, 0);
      LastReport(hs, index, false, mix.o2) && LastReport(hs, index, true, mix.he)
    decreases |hs|
  {
    hide LastReport, ReportsGas, ReportsAny;
    if hs == [] {
      NoReport(index);
    } else {
      var init, h := hs[..|hs| - 1], hs[|hs| - 1];
      ReportedExactly(init, index);
      assert hs == init + [h];
      var mix := if Reported(init, index).Some? then Reported(init, index).value else Mix(0, 0);
      ReportsStep(init, h, index);
      LastReportStep(init, h, index, false, mix.o2);
      LastReportStep(init, h, index, true, mix.he);
    }
  }

  lemma NoReport(index: nat)
    ensures LastReport([], index, false, 0) && LastReport([], index, true, 0) && !ReportsAny([], index)
  {
  }

  lemma ReportsStep(init: seq<Header>, h: Header, index: nat)
    ensures ReportsAny(init + [h], index) <==>
      ReportsGas(h, index, false) || ReportsGas(h, index, true) || ReportsAny(init, index)
    ensures ReportsGas(h, index, false) <==> h.O2? && h.index == index && h.value != 0
    ensures ReportsGas(h, index, true) <==> h.He? && h.index == index && h.value != 0
  {
    var all := init + [h];
    assert all[|init|] == h;
    assert forall k :: 0 <= k < |init| ==> all[k] == init[k];
  }

  /** The tanks of a dive in the order of the std::map, by index. */
  function Tanks(hs: seq<Header>, n: nat): seq<nat> {
    if n == 0 then [] else Tanks(hs, n - 1) + (if HasTank(hs, n - 1) then [n - 1] else [])
  }

  lemma {:induction false} TanksOrdered(hs: seq<Header>, n: nat)
    ensures forall i :: i in Tanks(hs, n) <==> 0 <= i < n && HasTank(hs, i)
    ensures forall i, j :: 0 <= i < j < |Tanks(hs, n)| ==> Tanks(hs, n)[i] < Tanks(hs, n)[j]
  {
    hide HasTank;
    if n > 0 {
      TanksOrdered(hs, n - 1);
      var before, all := Tanks(hs, n - 1), Tanks(hs, n);
      forall i, j | 0 <= i < j < |all| ensures all[i] < all[j] {
        assert all[i] == before[i] && before[i] in before;
      }
    }
  }

  /** A tank is linked exactly when a pressure or a gas was reported for it, and links come by index. */
  lemma TanksExactly(hs: seq<Header>, n: nat, tank: nat)
    ensures tank in Tanks(hs, n) <==>
      tank < n && exists k :: 0 <= k < |hs| && hs[k].index == tank && (hs[k].TankPressure? || hs[k].value != 0)
    ensures forall i, j :: 0 <= i < j < |Tanks(hs, n)| ==> Tanks(hs, n)[i] < Tanks(hs, n)[j]
  {
    hide HasTank, Tanks;
    TanksOrdered(hs, n);
    HasTankExactly(hs, tank);
  }

  lemma HasTankExactly(hs: seq<Header>, i: nat)
    ensures HasTank(hs, i) <==>
      exists k :: 0 <= k < |hs| && hs[k].index == i && (hs[k].TankPressure? || hs[k].value != 0)
  {
    if HasTank(hs, i) {
      var k :| 0 <= k < |hs| && Touches(hs[k], i);
    }
    if k :| 0 <= k < |hs| && hs[k].index == i && (hs[k].TankPressure? || hs[k].value != 0) {
      assert Touches(hs[k], i);
    }
  }

  // ---------------------------------------------------------------- the table

  const STANDARD: Mixes := map["air" := Mix(210, 0), "ean32" := Mix(320, 0), "ean36" := Mix(360, 0)]

  /** Keys are the standard names and mix-3 up to mix-<size - 1>; no two mixes are the same gas. */
  ghost predicate TableOk(m: Mixes) {
    && |m| >= 3
    && STANDARD.Keys <= m.Keys && m["air"] == Mix(210, 0)
    && (forall name :: name in m ==> name in STANDARD || exists k :: 3 <= k < |m| && name == MixName(k))
    && (forall a, b :: a in m && b in m && m[a] == m[b] ==> a == b)
  }

  /** Nothing is ever removed from the table or changed in it. */
  predicate Extends(a: Mixes, b: Mixes) {
    forall name :: name in a ==> name in b && b[name] == a[name]
  }

  lemma FreshName(m: Mixes)
    requires TableOk(m)
    ensures MixName(|m|) !in m
  {
    if MixName(|m|) in m {
      MixNamesDiffer(|m|, |m|);
      var k :| 3 <= k < |m| && MixName(|m|) == MixName(k);
      MixNamesDiffer(|m|, k);
    }
  }

  lemma AddKeepsTableOk(m: Mixes, p: Mix)
    requires TableOk(m) && forall name :: name in m ==> m[name] != p
    ensures MixName(|m|) !in m
    ensures TableOk(m[MixName(|m|) := p]) && |m[MixName(|m|) := p]| == |m| + 1
    ensures Extends(m, m[MixName(|m|) := p])
  {
    FreshName(m);
    var n := m[MixName(|m|) := p];
    assert n.Keys == m.Keys + {MixName(|m|)};
    forall name | name in n ensures name in STANDARD || exists k :: 3 <= k < |n| && name == MixName(k) {
      if name in m && name !in STANDARD {
        var k :| 3 <= k < |m| && name == MixName(k);
      }
    }
  }

  /** A tank link of the output: which dive and tank, what was reported for it, the mix it refers to. */
  datatype Link = Link(dive: nat, tank: nat, reported: Option<Mix>, ref: string)

  /** The link resolves in the table to the mix reported for the tank, or to air when none was. */
  predicate Resolves(m: Mixes, link: Link) {
    link.ref in m && if link.reported.Some? then m[link.ref] == link.reported.value else link.ref == "air"
  }

  /** The links of a dive without their references. */
  function Expected(dive: nat, hs: seq<Header>, tanks: seq<nat>): seq<(nat, nat, Option<Mix>)> {
    seq(|tanks|, i requires 0 <= i < |tanks| => (dive, tanks[i], Reported(hs, tanks[i])))
  }

  function Targets(links: seq<Link>): seq<(nat, nat, Option<Mix>)> {
    seq(|links|, i requires 0 <= i < |links| => (links[i].dive, links[i].tank, links[i].reported))
  }

  predicate AllResolve(m: Mixes, links: seq<Link>) {
    forall i :: 0 <= i < |links| ==> Resolves(m, links[i])
  }

  // ---------------------------------------------------------------- the formatter

  lemma AirInTable(m: Mixes)
    requires TableOk(m)
    ensures "air" in m && m["air"] == Mix(210, 0)
  {
  }

  class Formatter {
    var mixes: Mixes
    var curMixes: Mixes
    var tanks: set<nat>
    var dives: nat
    var links: seq<Link>
    /** The header callbacks of the current dive so far. */
    ghost var headers: seq<Header>

    ghost predicate Valid()
      reads this
    {
      && TableOk(mixes) && AllResolve(mixes, links)
      && (forall i :: i in tanks <==> HasTank(headers, i))
      && (forall i {:trigger Reported(headers, i)} ::
            if Reported(headers, i).Some?
            then MixName(i) in curMixes && curMixes[MixName(i)] == Reported(headers, i).value
            else MixName(i) !in curMixes)
    }

    /** uddf_init_formatter */
    constructor ()
      ensures Valid() && mixes == STANDARD && links == [] && dives == 0 && headers == []
    {
      mixes, curMixes, tanks := STANDARD, map[], {};
      dives, links, headers := 0, [], [];
    }

    /** uddf_prolog */
    method Prolog()
      requires Valid()
      modifies this
      ensures Valid() && headers == [] && mixes == old(mixes) && links == old(links) && dives == old(dives) + 1
    {
      curMixes, tanks, headers := map[], {}, [];
      dives := dives + 1;
    }

    /** The tank cases of uddf_header_cb. */
    method HeaderCallback(h: Header)
      requires Valid()
      modifies this
      ensures Valid() && headers == old(headers) + [h]
      ensures mixes == old(mixes) && links == old(links) && dives == old(dives)
    {
      hide HasTank, Reported, MixName, TableOk, AllResolve;
      forall i ensures HasTank(headers + [h], i) <==> HasTank(headers, i) || Touches(h, i) {
        LastHeader(headers, h, i);
      }
      forall i: nat {:trigger Reported(headers + [h], i)} | i != h.index
        ensures Reported(headers + [h], i) == Reported(headers, i) && MixName(i) != MixName(h.index)
      {
        LastHeader(headers, h, i);
        MixNamesDiffer(i, h.index);
      }
      LastHeader(headers, h, h.index);
      headers := headers + [h];
      match h {
        case TankPressure(index) =>
          tanks := tanks + {index};
        case O2(value, index) =>
          if value != 0 {
            tanks := tanks + {index};
            var name := MixName(index);
            var he := if name in curMixes then curMixes[name].he else 0;
            curMixes := curMixes[name := Mix(value % 0x1_0000, he)];
          }
        case He(value, index) =>
          if value != 0 {
            tanks := tanks + {index};
            var name := MixName(index);
            var o2 := if name in curMixes then curMixes[name].o2 else 0;
            curMixes := curMixes[name := Mix(o2, value % 0x1_0000)];
          }
      }
    }

    /** The search for a mix with the gases p over the table. */
    method FindMix(p: Mix) returns (name: Option<string>)
      ensures name.Some? ==> name.value in mixes && mixes[name.value] == p
      ensures name.None? ==> forall n :: n in mixes ==> mixes[n] != p
    {
      var rest := mixes.Keys;
      while rest != {}
        invariant rest <= mixes.Keys
        invariant forall n :: n in mixes && n !in rest ==> mixes[n] != p
        decreases rest
      {
        var n :| n in rest;
        if mixes[n] == p { return Some(n); }
        rest := rest - {n};
      }
      return None;
    }

    /** The link of one tank, adding its mix to the table when no mix has its gases. */
    method LinkTank(tank: nat)
      requires Valid()
      modifies this`mixes, this`links
      ensures Valid() && Extends(old(mixes), mixes)
      ensures |links| == |old(links)| + 1 && links[..|old(links)|] == old(links)
      ensures var link := links[|old(links)|];
        link.dive == dives && link.tank == tank && link.reported == Reported(headers, tank)
    {
      hide MixName, Reported, TableOk, HasTank;
      AirInTable(mixes);
      var name := MixName(tank);
      var ref := "air";
      var reported := None;
      if name in curMixes {
        var p := curMixes[name];
        reported := Some(p);
        var found := FindMix(p);
        if found.Some? {
          ref := found.value;
        } else {
          AddKeepsTableOk(mixes, p);
          ref := MixName(|mixes|);
          ghost var before := mixes;
          mixes := mixes[ref := p];
          assert AllResolve(mixes, links) by { ExtendsResolves(before, mixes, links); }
        }
      }
      assert reported == Reported(headers, tank);
      links := links + [Link(dives, tank, reported, ref)];
    }

    /** uddf_epilog: links every tank of the dive, in index order. */
    method Epilog()
      requires Valid()
      modifies this`mixes, this`links
      ensures Valid() && Extends(old(mixes), mixes)
      ensures Targets(links) == Targets(old(links)) + Expected(dives, headers, Tanks(headers, 256))
    {
      hide MixName, Reported, TableOk, AllResolve;
      var i := 0;
      while i < 256
        invariant 0 <= i <= 256 && Valid() && Extends(old(mixes), mixes)
        invariant Targets(links) == Targets(old(links)) + Expected(dives, headers, Tanks(headers, i))
      {
        if i in tanks {
          ghost var before := links;
          LinkTank(i);
          TargetsLast(before, links);
          ExpectedLast(dives, headers, Tanks(headers, i), i);
        }
        i := i + 1;
      }
    }
  }

  /** One dive: prolog, header callbacks, epilog. */
  method FormatDive(f: Formatter, hs: seq<Header>)
    requires f.Valid()
    modifies f
    ensures f.Valid() && f.dives == old(f.dives) + 1 && Extends(old(f.mixes), f.mixes)
    ensures Targets(f.links) == Targets(old(f.links)) + Expected(f.dives, hs, Tanks(hs, 256))
  {
    f.Prolog();
    var j := 0;
    while j < |hs|
      invariant j <= |hs| && f.Valid() && f.headers == hs[..j] && f.dives == old(f.dives) + 1
      invariant f.links == old(f.links) && f.mixes == old(f.mixes)
    {
      f.HeaderCallback(hs[j]);
      j := j + 1;
    }
    assert hs[..j] == hs;
    f.Epilog();
  }

  lemma ExtendsResolves(a: Mixes, b: Mixes, links: seq<Link>)
    requires Extends(a, b) && AllResolve(a, links)
    ensures AllResolve(b, links)
  {
  }

  lemma TargetsLast(a: seq<Link>, b: seq<Link>)
    requires |b| == |a| + 1 && b[..|a|] == a
    ensures Targets(b) == Targets(a) + [(b[|a|].dive, b[|a|].tank, b[|a|].reported)]
  {
    assert forall i :: 0 <= i < |a| ==> b[i] == a[i];
  }

  lemma ExpectedLast(dive: nat, hs: seq<Header>, tanks: seq<nat>, i: nat)
    ensures Expected(dive, hs, tanks + [i]) == Expected(dive, hs, tanks) + [(dive, i, Reported(hs, i))]
  {
  }

  // ---------------------------------------------------------------- whole runs

  /** The links a run of dives must produce, dives numbered from `first` on. */
  function ExpectedRun(first: nat, dives: seq<seq<Header>>): seq<(nat, nat, Option<Mix>)>
    decreases |dives|
  {
    if dives == [] then []
    else Expected(first, dives[0], Tanks(dives[0], 256)) + ExpectedRun(first + 1, dives[1..])
  }

  /** A whole transfer: every tank of every dive is linked, in order, and in the final table every link
      resolves to the mix reported for its tank (or to air); mixes are never removed, renamed or repeated. */
  method FormatDives(dives: seq<seq<Header>>) returns (f: Formatter)
    ensures f.Valid() && fresh(f)
    ensures Targets(f.links) == ExpectedRun(1, dives)
    ensures {"air", "ean32", "ean36"} <= f.mixes.Keys
    ensures f.mixes["air"] == Mix(210, 0) && f.mixes["ean32"] == Mix(320, 0) && f.mixes["ean36"] == Mix(360, 0)
    ensures forall name :: name in f.mixes ==>
      name in {"air", "ean32", "ean36"} || exists k: nat :: 3 <= k < |f.mixes| && Numbered(name, k)
  {
    f := new Formatter();
    var k: nat := 0;
    assert dives[0..] == dives;
    assert Targets(f.links) == [];
    hide Expected, Tanks, Targets;
    while k < |dives|
      invariant k <= |dives| && f.Valid() && f.dives == k && fresh(f)
      invariant Targets(f.links) + ExpectedRun(k + 1, dives[k..]) == ExpectedRun(1, dives)
      invariant Extends(STANDARD, f.mixes)
    {
      ghost var before := Targets(f.links);
      FormatDive(f, dives[k]);
      assert dives[k..][1..] == dives[k + 1..];
      ConcatAssoc(before, Expected(k + 1, dives[k], Tanks(dives[k], 256)), ExpectedRun(k + 2, dives[k + 1..]));
      k := k + 1;
    }
    assert Targets(f.links) + [] == Targets(f.links);
    StandardNames(f.mixes);
  }

  predicate Numbered(name: string, k: nat) {
    name == "mix-" + Decimal.Show(k)
  }

  lemma StandardNames(m: Mixes)
    requires TableOk(m) && Extends(STANDARD, m)
    ensures {"air", "ean32", "ean36"} <= m.Keys
    ensures m["air"] == Mix(210, 0) && m["ean32"] == Mix(320, 0) && m["ean36"] == Mix(360, 0)
    ensures forall name :: name in m ==>
      name in {"air", "ean32", "ean36"} || exists k: nat :: 3 <= k < |m| && Numbered(name, k)
  {
    assert "air" in STANDARD && "ean32" in STANDARD && "ean36" in STANDARD;
    forall name | name in m && name !in STANDARD
      ensures exists k: nat :: 3 <= k < |m| && Numbered(name, k)
    {
      var k :| 3 <= k < |m| && name == MixName(k);
      assert Numbered(name, k);
    }
  }

  /** Two tanks link to the same mix exactly when the same gas is reported for them, air included. */
  lemma SameGasSameMix(m: Mixes, a: Link, b: Link)
    requires TableOk(m) && Resolves(m, a) && Resolves(m, b)
    ensures a.ref == b.ref <==> GasOf(a.reported) == GasOf(b.reported)
  {
    assert m[a.ref] == GasOf(a.reported) && m[b.ref] == GasOf(b.reported);
  }

  function GasOf(reported: Option<Mix>): Mix {
    if reported.Some? then reported.value else Mix(210, 0)
  }
}

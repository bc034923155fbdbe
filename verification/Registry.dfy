/**
  The plugin registry: which manifests are accepted, what a driver name resolves to, and the life of the
  shared libraries behind the plugins.
 */
module Registry {
  import opened Words
  import opened Wrappers
  import opened ManifestSpec
  import opened Names
  import ManifestParser

  /** A driver as the registry lists it: the name of its plugin and the driver itself. */
  datatype Registered = Registered(plugin: string, driver: Driver)

  datatype Code = Ok | NotInit | BadManifest | Exists | NotFound | Ambiguous
                | NoOpen | NoLoadSymbol | NoUnloadSymbol | NoDriverSymbol | LoadFailed | NotInPlugin

  // ---------------------------------------------------------------- registration

  function Tagged(plugin: string, drivers: seq<Driver>): seq<Registered> {
    if drivers == [] then []
    else Tagged(plugin, drivers[..|drivers| - 1]) + [Registered(plugin, drivers[|drivers| - 1])]
  }

  function DriversOf(ms: seq<Manifest>): seq<Registered> {
    if ms == [] then []
    else DriversOf(ms[..|ms| - 1]) + Tagged(ms[|ms| - 1].name, ms[|ms| - 1].drivers)
  }

  lemma TaggedStep(plugin: string, ds: seq<Driver>, i: nat)
    requires i < |ds|
    ensures Tagged(plugin, ds[..i + 1]) == Tagged(plugin, ds[..i]) + [Registered(plugin, ds[i])]
  {
    assert ds[..i + 1][..i] == ds[..i];
  }

  lemma DriversOfLast(front: seq<Manifest>, last: Manifest)
    ensures DriversOf(front + [last]) == DriversOf(front) + Tagged(last.name, last.drivers)
  {
    assert (front + [last])[..|front|] == front;
  }

  predicate NameTaken(ms: seq<Manifest>, name: string) {
    exists k :: 0 <= k < |ms| && SameName(ms[k].name, name)
  }

  /** The manifests a history of registrations keeps. */
  function Accepted(ms: seq<Manifest>): seq<Manifest> {
    if ms == [] then []
    else
      var before := Accepted(ms[..|ms| - 1]);
      if NameTaken(before, ms[|ms| - 1].name) then before else before + [ms[|ms| - 1]]
  }

  lemma AcceptedLast(front: seq<Manifest>, last: Manifest)
    ensures Accepted(front + [last]) ==
      Accepted(front) + if NameTaken(Accepted(front), last.name) then [] else [last]
  {
    assert (front + [last])[..|front|] == front;
  }

  predicate NamesDistinct(ms: seq<Manifest>) {
    forall i, j :: 0 <= i < j < |ms| ==> !SameName(ms[i].name, ms[j].name)
  }

  /** Refusing a manifest loses no plugin name and lets none in twice. */
  lemma {:induction false} AcceptedNames(ms: seq<Manifest>, name: string)
    ensures NameTaken(Accepted(ms), name) <==> NameTaken(ms, name)
    ensures NamesDistinct(Accepted(ms))
    ensures forall m :: m in Accepted(ms) ==> m in ms
  {
    if ms != [] {
      var front, last := ms[..|ms| - 1], ms[|ms| - 1];
      AcceptedNames(front, name);
      AcceptedNames(front, last.name);
      NameTakenLast(front, last, name);
      NameTakenLast(Accepted(front), last, name);
      assert ms == front + [last];
      if NameTaken(front, last.name) && SameName(last.name, name) {
        var k :| 0 <= k < |front| && SameName(front[k].name, last.name);
        assert SameName(front[k].name, name);
      }
    }
  }

  lemma NameTakenLast(front: seq<Manifest>, last: Manifest, name: string)
    ensures NameTaken(front + [last], name) <==> NameTaken(front, name) || SameName(last.name, name)
  {
    var all := front + [last];
    assert all[|front|] == last;
    assert forall k :: 0 <= k < |front| ==> all[k] == front[k];
  }

  // ---------------------------------------------------------------- lookup

  function Dot(name: string): (k: nat)
    ensures k <= |name|
    ensures k < |name| ==> name[k] == '.'
    ensures forall j :: 0 <= j < k ==> name[j] != '.'
  {
    if name == "" || name[0] == '.' then 0 else 1 + Dot(name[1..])
  }

  function PluginPart(name: string): string {
    if Dot(name) < |name| then name[..Dot(name)] else ""
  }

  function DriverPart(name: string): string {
    if Dot(name) < |name| then name[Dot(name) + 1..] else name
  }

  predicate Matches(r: Registered, plugin: string, driver: string) {
    (plugin == "" || SameName(r.plugin, plugin)) && SameName(r.driver.name, driver)
  }

  function Matching(rs: seq<Registered>, plugin: string, driver: string): seq<Registered> {
    if rs == [] then []
    else
      var last := rs[|rs| - 1];
      Matching(rs[..|rs| - 1], plugin, driver) + if Matches(last, plugin, driver) then [last] else []
  }

  datatype Answer = Missing | Several | Unique(r: Registered)

  /** None, exactly one, or several matching drivers. */
  function AnswerOf(matching: seq<Registered>): Answer {
    if |matching| == 0 then Missing else if |matching| == 1 then Unique(matching[0]) else Several
  }

  function Resolve(rs: seq<Registered>, name: string): Answer {
    AnswerOf(Matching(rs, PluginPart(name), DriverPart(name)))
  }

  lemma {:induction false} MatchingJoin(a: seq<Registered>, b: seq<Registered>, plugin: string, driver: string)
    ensures Matching(a + b, plugin, driver) == Matching(a, plugin, driver) + Matching(b, plugin, driver)
    decreases |b|
  {
    if b == [] {
      assert a + b == a;
    } else {
      var front := b[..|b| - 1];
      assert (a + b)[..|a + b| - 1] == a + front && (a + b)[|a + b| - 1] == b[|b| - 1];
      MatchingJoin(a, front, plugin, driver);
    }
  }

  /** The matches are exactly the registered drivers that match. */
  lemma {:induction false} MatchingExactly(rs: seq<Registered>, plugin: string, driver: string, r: Registered)
    ensures r in Matching(rs, plugin, driver) <==> r in rs && Matches(r, plugin, driver)
  {
    hide Matches;
    if rs != [] {
      var front, last := rs[..|rs| - 1], rs[|rs| - 1];
      MatchingExactly(front, plugin, driver, r);
      assert rs == front + [last];
    }
  }

  lemma ResolvedListed(rs: seq<Registered>, name: string, r: Registered)
    requires Resolve(rs, name) == Unique(r)
    ensures r in rs && Matches(r, PluginPart(name), DriverPart(name))
  {
    hide Matching, Matches, PluginPart, DriverPart;
    MatchingExactly(rs, PluginPart(name), DriverPart(name), r);
  }

  lemma SplitName(name: string)
    ensures if Dot(name) < |name| then PluginPart(name) == name[..Dot(name)] && DriverPart(name) == name[Dot(name) + 1..]
      else PluginPart(name) == "" && DriverPart(name) == name
  {
  }

  lemma MatchingNone(plugin: string, driver: string)
    ensures Matching([], plugin, driver) == [] && DriversOf([]) == []
  {
  }

  lemma MatchingStep(rs: seq<Registered>, i: nat, plugin: string, driver: string)
    requires i < |rs|
    ensures Matching(rs[..i + 1], plugin, driver) ==
      Matching(rs[..i], plugin, driver) + if Matches(rs[i], plugin, driver) then [rs[i]] else []
    ensures |Matching(rs[..i], plugin, driver)| <= |Matching(rs, plugin, driver)|
  {
    assert rs[..i + 1][..i] == rs[..i];
    MatchingJoin(rs[..i], rs[i..], plugin, driver);
    assert rs[..i] + rs[i..] == rs;
  }

  /** The first driver of that name, without regard to case. */
  function DriverNamed(ds: seq<Driver>, name: string): (r: Option<Driver>)
    ensures r.Some? ==> r.value in ds && SameName(r.value.name, name)
    ensures r.None? ==> forall d :: d in ds ==> !SameName(d.name, name)
  {
    if ds == [] then None
    else if SameName(ds[0].name, name) then Some(ds[0])
    else DriverNamed(ds[1..], name)
  }

  /** The first manifest of that plugin name, without regard to case. */
  function FirstNamed(ms: seq<Manifest>, plugin: string): Option<Manifest> {
    if ms == [] then None
    else if SameName(ms[0].name, plugin) then Some(ms[0])
    else FirstNamed(ms[1..], plugin)
  }

  lemma {:induction false} FirstNamedLast(front: seq<Manifest>, last: Manifest, plugin: string)
    ensures FirstNamed(front + [last], plugin) ==
      if FirstNamed(front, plugin).Some? then FirstNamed(front, plugin)
      else if SameName(last.name, plugin) then Some(last) else None
    ensures FirstNamed(front, plugin).Some? <==> NameTaken(front, plugin)
  {
    if front == [] {
      assert front + [last] == [last];
    } else {
      assert (front + [last])[1..] == front[1..] + [last];
      FirstNamedLast(front[1..], last, plugin);
      assert NameTaken(front, plugin) <==> SameName(front[0].name, plugin) || NameTaken(front[1..], plugin) by {
        assert forall k :: 0 <= k < |front| - 1 ==> front[1..][k] == front[k + 1];
      }
    }
  }

  function ListOf(plugin: string, d: Option<Driver>): seq<Registered> {
    if d.Some? then [Registered(plugin, d.value)] else []
  }

  lemma {:induction false} DriverNamedLast(front: seq<Driver>, last: Driver, name: string)
    ensures DriverNamed(front + [last], name) ==
      if DriverNamed(front, name).Some? then DriverNamed(front, name)
      else if SameName(last.name, name) then Some(last) else None
  {
    hide Lower;
    if front != [] {
      assert (front + [last])[1..] == front[1..] + [last];
      DriverNamedLast(front[1..], last, name);
    }
  }

  lemma MatchingLast(rs: seq<Registered>, r: Registered, plugin: string, driver: string)
    ensures Matching(rs + [r], plugin, driver) ==
      Matching(rs, plugin, driver) + if Matches(r, plugin, driver) then [r] else []
  {
    hide Matches;
    assert (rs + [r])[..|rs|] == rs;
  }

  lemma TaggedLast(plugin: string, front: seq<Driver>, last: Driver)
    ensures Tagged(plugin, front + [last]) == Tagged(plugin, front) + [Registered(plugin, last)]
    ensures Tagged(plugin, []) == []
  {
    assert (front + [last])[..|front|] == front;
  }

  lemma LastDistinct(front: seq<Driver>, last: Driver, name: string)
    requires NoClash(DriverClash, front + [last]) && SameName(last.name, name)
    ensures NoClash(DriverClash, front) && DriverNamed(front, name) == None
  {
    hide Lower;
    var ds := front + [last];
    assert forall k :: 0 <= k < |front| ==> ds[k] == front[k] && !DriverClash(ds[k], ds[|front|]);
  }

  /** Inside one accepted manifest a driver name matches at most once. */
  lemma {:induction false} MatchingInPlugin(name: string, ds: seq<Driver>, plugin: string, driver: string)
    requires NoClash(DriverClash, ds)
    ensures Matching(Tagged(name, ds), plugin, driver) ==
      if plugin == "" || SameName(name, plugin) then ListOf(name, DriverNamed(ds, driver)) else []
  {
    hide Lower, Tagged, Matching;
    MatchingNone(plugin, driver);
    if ds == [] {
      TaggedLast(name, [], Driver("", "", UnknownInterface, [], []));
    } else {
      var front, last := ds[..|ds| - 1], ds[|ds| - 1];
      assert ds == front + [last];
      MatchingInPlugin(name, front, plugin, driver);
      TaggedLast(name, front, last);
      MatchingLast(Tagged(name, front), Registered(name, last), plugin, driver);
      DriverNamedLast(front, last, driver);
      if SameName(last.name, driver) { LastDistinct(front, last, driver); }
    }
  }

  /** What `plugin.driver` means after any history of registrations: the driver of that name in the first
      manifest registered under that plugin name, if there is one. */
  lemma {:induction false} QualifiedLookup(ms: seq<Manifest>, plugin: string, driver: string)
    requires plugin != ""
    requires forall m :: m in ms ==> ManifestOk(m)
    ensures Matching(DriversOf(Accepted(ms)), plugin, driver) ==
      match FirstNamed(ms, plugin)
      case None => []
      case Some(m) => ListOf(m.name, DriverNamed(m.drivers, driver))
  {
    if ms != [] {
      var front, last := ms[..|ms| - 1], ms[|ms| - 1];
      assert ms == front + [last];
      QualifiedLookup(front, plugin, driver);
      AcceptedNames(front, last.name);
      FirstNamedLast(front, last, plugin);
      FirstNamedLast(front, last, last.name);
      SameTaken(front, plugin, last.name);
      if !NameTaken(front, last.name) {
        AcceptLast(front, last, plugin, driver);
      }
    }
  }

  lemma SameTaken(ms: seq<Manifest>, a: string, b: string)
    ensures SameName(b, a) ==> (NameTaken(ms, a) <==> NameTaken(ms, b))
  {
  }

  lemma AcceptLast(front: seq<Manifest>, last: Manifest, plugin: string, driver: string)
    requires !NameTaken(front, last.name) && ManifestOk(last)
    ensures Accepted(front + [last]) == Accepted(front) + [last]
    ensures Matching(DriversOf(Accepted(front + [last])), plugin, driver) ==
      Matching(DriversOf(Accepted(front)), plugin, driver) +
      if plugin == "" || SameName(last.name, plugin) then ListOf(last.name, DriverNamed(last.drivers, driver)) else []
  {
    var ms, a := front + [last], Accepted(front);
    assert ms[..|ms| - 1] == front;
    AcceptedNames(front, last.name);
    assert (a + [last])[..|a + [last]| - 1] == a;
    MatchingJoin(DriversOf(a), Tagged(last.name, last.drivers), plugin, driver);
    MatchingInPlugin(last.name, last.drivers, plugin, driver);
  }

  /** A name with a plugin part never finds several drivers. */
  lemma QualifiedNeverAmbiguous(ms: seq<Manifest>, name: string)
    requires forall m :: m in ms ==> ManifestOk(m)
    requires PluginPart(name) != ""
    ensures Resolve(DriversOf(Accepted(ms)), name) != Several
  {
    QualifiedLookup(ms, PluginPart(name), DriverPart(name));
  }

  lemma {:induction false} TaggedName(plugin: string, ds: seq<Driver>, r: Registered)
    requires r in Tagged(plugin, ds)
    ensures r.plugin == plugin
  {
    if ds != [] && r in Tagged(plugin, ds[..|ds| - 1]) { TaggedName(plugin, ds[..|ds| - 1], r); }
  }

  /** A registered driver carries the name of an accepted manifest. */
  lemma {:induction false} RegisteredPlugin(ms: seq<Manifest>, r: Registered)
    requires r in DriversOf(ms)
    ensures exists m :: m in ms && m.name == r.plugin
  {
    if ms != [] {
      var front, last := ms[..|ms| - 1], ms[|ms| - 1];
      if r in DriversOf(front) {
        RegisteredPlugin(front, r);
      } else {
        TaggedName(last.name, last.drivers, r);
        assert last in ms;
      }
    }
  }

  lemma {:induction false} DotFirst(a: string, b: string)
    ensures '.' !in a ==> Dot(a + "." + b) == |a|
    ensures '.' in a ==> Dot(a + "." + b) < |a|
  {
    if a == "" {
      assert a + "." + b == "." + b;
    } else {
      assert (a + "." + b)[0] == a[0] && (a + "." + b)[1..] == a[1..] + "." + b;
      DotFirst(a[1..], b);
    }
  }

  /** What a qualified name splits into: the two parts exactly when the first has no dot. */
  lemma QualifiedSplits(plugin: string, driver: string)
    ensures var name := plugin + "." + driver;
      if '.' !in plugin then PluginPart(name) == plugin && DriverPart(name) == driver
      else |PluginPart(name)| < |plugin| && |PluginPart(name)| + 1 + |DriverPart(name)| == |name|
  {
    DotFirst(plugin, driver);
    var name := plugin + "." + driver;
    if '.' !in plugin {
      assert name[..|plugin|] == plugin && name[|plugin| + 1..] == driver;
    }
    hide Dot;
  }

  /** A registered driver is found under the name `plugin.driver` exactly when the plugin's own name has no dot:
      the name is split at its first one. */
  lemma QualifiedNameExactly(ms: seq<Manifest>, r: Registered)
    requires forall m :: m in ms ==> ManifestOk(m)
    requires r in DriversOf(Accepted(ms))
    ensures Resolve(DriversOf(Accepted(ms)), r.plugin + "." + r.driver.name) == Unique(r) <==> '.' !in r.plugin
  {
    hide Matching, DriversOf, Accepted, Dot, PluginPart, DriverPart, Lower;
    var rs, name := DriversOf(Accepted(ms)), r.plugin + "." + r.driver.name;
    AcceptedNames(ms, "");
    RegisteredPlugin(Accepted(ms), r);
    assert r.plugin != "";
    QualifiedSplits(r.plugin, r.driver.name);
    if '.' !in r.plugin {
      QualifiedLookup(ms, r.plugin, r.driver.name);
      MatchingExactly(rs, r.plugin, r.driver.name, r);
      OnlyOne(Matching(rs, r.plugin, r.driver.name), r);
    } else if Resolve(rs, name) == Unique(r) {
      ResolvedListed(rs, name, r);
      LongerName(r, PluginPart(name), DriverPart(name));
    }
  }

  lemma {:induction false} DotCase(a: string, b: string)
    requires CaseEqual(a, b)
    ensures Dot(a) == Dot(b)
  {
    if a != "" && a[0] != '.' {
      forall i | 0 <= i < |a| - 1 ensures a[1..][i] == b[1..][i] || TwoCases(a[1..][i], b[1..][i]) {
        assert a[i + 1] == b[i + 1] || TwoCases(a[i + 1], b[i + 1]);
      }
      DotCase(a[1..], b[1..]);
    }
  }

  lemma CaseSlice(a: string, b: string, from: nat, to: nat)
    requires CaseEqual(a, b) && from <= to <= |a|
    ensures CaseEqual(a[from..to], b[from..to])
  {
    hide TwoCases;
    forall i | 0 <= i < to - from
      ensures a[from..to][i] == b[from..to][i] || TwoCases(a[from..to][i], b[from..to][i])
    {
      assert a[from + i] == b[from + i] || TwoCases(a[from + i], b[from + i]);
    }
  }

  lemma PartsCase(a: string, b: string)
    requires CaseEqual(a, b)
    ensures SameName(PluginPart(a), PluginPart(b)) && SameName(DriverPart(a), DriverPart(b))
    ensures PluginPart(a) == "" <==> PluginPart(b) == ""
  {
    hide Lower, CaseEqual, Dot;
    DotCase(a, b);
    SameLength(a, b);
    var k := Dot(a);
    if k < |a| {
      CaseSlice(a, b, 0, k);
      CaseSlice(a, b, k + 1, |a|);
      assert a[0..k] == a[..k] && b[0..k] == b[..k];
      assert a[k + 1..|a|] == a[k + 1..] && b[k + 1..|b|] == b[k + 1..];
      SameNameExactly(a[..k], b[..k]);
      SameNameExactly(a[k + 1..], b[k + 1..]);
    } else {
      SameNameExactly(a, b);
      SameNameExactly("", "");
      EmptyCase();
    }
  }

  lemma SameLength(a: string, b: string)
    requires CaseEqual(a, b)
    ensures |a| == |b|
  {
  }

  lemma EmptyCase()
    ensures CaseEqual("", "")
  {
  }

  lemma {:induction false} MatchingCase(rs: seq<Registered>, plugin: string, driver: string,
                                        plugin': string, driver': string)
    requires SameName(plugin, plugin') && SameName(driver, driver') && (plugin == "" <==> plugin' == "")
    ensures Matching(rs, plugin, driver) == Matching(rs, plugin', driver')
  {
    hide Lower;
    if rs != [] { MatchingCase(rs[..|rs| - 1], plugin, driver, plugin', driver'); }
  }

  /** Lookup has no regard to case: names with the same letters, upper or lower case, resolve alike; in
      particular a driver that is found under its name is found under every such spelling. */
  lemma ResolveCase(rs: seq<Registered>, a: string, b: string)
    requires CaseEqual(a, b)
    ensures Resolve(rs, a) == Resolve(rs, b)
  {
    hide Lower, CaseEqual, PluginPart, DriverPart, Matching;
    PartsCase(a, b);
    MatchingCase(rs, PluginPart(a), DriverPart(a), PluginPart(b), DriverPart(b));
  }

  /** A registered driver matches a name, letter by letter. */
  predicate NamesIt(r: Registered, name: string) {
    && (PluginPart(name) == "" || CaseEqual(r.plugin, PluginPart(name)))
    && CaseEqual(r.driver.name, DriverPart(name))
  }

  lemma MatchesExactly(r: Registered, name: string)
    ensures Matches(r, PluginPart(name), DriverPart(name)) <==> NamesIt(r, name)
  {
    hide Lower, CaseEqual, PluginPart, DriverPart;
    SameNameExactly(r.plugin, PluginPart(name));
    SameNameExactly(r.driver.name, DriverPart(name));
  }

  /** How many positions of the list hold a match. */
  function Count(rs: seq<Registered>, name: string): nat {
    if rs == [] then 0 else (if NamesIt(rs[0], name) then 1 else 0) + Count(rs[1..], name)
  }

  lemma {:induction false} CountMatching(rs: seq<Registered>, name: string)
    ensures |Matching(rs, PluginPart(name), DriverPart(name))| == Count(rs, name)
  {
    hide Matches, NamesIt, PluginPart, DriverPart;
    if rs == [] {
      MatchingNone(PluginPart(name), DriverPart(name));
    } else {
      CountMatching(rs[1..], name);
      MatchesExactly(rs[0], name);
      MatchingJoin([rs[0]], rs[1..], PluginPart(name), DriverPart(name));
      assert [rs[0]] + rs[1..] == rs;
      assert [rs[0]][..0] == [];
    }
  }

  /** The answer of a lookup, by how many registered drivers match letter by letter. */
  lemma ResolveExactly(rs: seq<Registered>, name: string)
    ensures Resolve(rs, name).Missing? <==> Count(rs, name) == 0
    ensures Resolve(rs, name).Several? <==> Count(rs, name) >= 2
    ensures Resolve(rs, name).Unique? ==> Resolve(rs, name).r in rs && NamesIt(Resolve(rs, name).r, name)
  {
    hide Matching, Count, Matches, NamesIt, PluginPart, DriverPart;
    CountMatching(rs, name);
    if Resolve(rs, name).Unique? {
      ResolvedListed(rs, name, Resolve(rs, name).r);
      MatchesExactly(Resolve(rs, name).r, name);
    }
  }

  lemma OnlyOne(matching: seq<Registered>, r: Registered)
    requires r in matching && |matching| <= 1
    ensures AnswerOf(matching) == Unique(r)
  {
  }

  /** Names of different length do not match. */
  lemma LongerName(r: Registered, plugin: string, driver: string)
    requires Matches(r, plugin, driver)
    ensures (plugin == "" || |plugin| == |r.plugin|) && |driver| == |r.driver.name|
  {
    assert |Lower(driver)| == |Lower(r.driver.name)|;
    if plugin != "" { assert |Lower(plugin)| == |Lower(r.plugin)|; }
  }

  lemma SingleManifest(m: Manifest, d: Driver)
    requires m.drivers == [d]
    ensures DriversOf(Accepted([m])) == [Registered(m.name, d)]
  {
    hide Lower;
    assert [m][..0] == [] && [d][..0] == [];
    assert Accepted([m]) == [m];
    assert Tagged(m.name, [d]) == [Registered(m.name, d)];
    assert DriversOf([m]) == [Registered(m.name, d)];
  }

  lemma NoneMatching(rs: seq<Registered>, plugin: string, driver: string)
    requires forall r :: r in rs ==> !Matches(r, plugin, driver)
    ensures Matching(rs, plugin, driver) == []
  {
    hide Matching, Matches;
    var found := Matching(rs, plugin, driver);
    if found != [] { MatchingExactly(rs, plugin, driver, found[0]); }
  }

  /** A plugin with a dot in its name, which no qualified name reaches. */
  lemma DottedPluginWitness()
    ensures var d := Driver("d", "", UnknownInterface, [], []);
      var ms := [Manifest("a.b", "lib", [d])];
      && (forall m :: m in ms ==> ManifestOk(m))
      && DriversOf(Accepted(ms)) == [Registered("a.b", d)]
      && Resolve(DriversOf(Accepted(ms)), "a.b.d") == Missing
  {
    hide Matching, Dot, Lower, DriversOf, Accepted;
    var d := Driver("d", "", UnknownInterface, [], []);
    var m := Manifest("a.b", "lib", [d]);
    var r := Registered("a.b", d);
    SingleManifest(m, d);
    DotFirst("a", "b.d");
    QualifiedSplits("a", "b.d");
    assert "a" + "." + "b.d" == "a.b.d";
    if Matches(r, "a", "b.d") { LongerName(r, "a", "b.d"); }
    MatchingExactly([r], "a", "b.d", r);
    NoneMatching([r], "a", "b.d");
  }

  /** How many of the manifests have a driver of that name. */
  function Providers(ms: seq<Manifest>, driver: string): nat {
    if ms == [] then 0
    else Providers(ms[..|ms| - 1], driver) + if DriverNamed(ms[|ms| - 1].drivers, driver).Some? then 1 else 0
  }

  /** A name without a plugin part is missing, unique or ambiguous exactly when none, one or several of the
      accepted plugins provide such a driver. */
  lemma {:induction false} UnqualifiedLookup(ms: seq<Manifest>, driver: string)
    requires forall m :: m in ms ==> ManifestOk(m)
    ensures |Matching(DriversOf(Accepted(ms)), "", driver)| == Providers(Accepted(ms), driver)
  {
    hide ManifestOk, Matching, DriversOf, NameTaken, DriverNamed;
    MatchingNone("", driver);
    if ms != [] {
      var front, last := ms[..|ms| - 1], ms[|ms| - 1];
      assert ms == front + [last];
      UnqualifiedLookup(front, driver);
      AcceptedNames(front, last.name);
      if !NameTaken(front, last.name) {
        AcceptLast(front, last, "", driver);
        var a := Accepted(front);
        assert (a + [last])[..|a|] == a;
      }
    }
  }

  // ---------------------------------------------------------------- library handles

  /** What happened to the handle of one dlopen. */
  datatype Event = Opened(h: nat) | Loaded(h: nat) | Unloaded(h: nat) | Closed(h: nat)

  /** How the attempt to load a library ends. */
  datatype Outcome = FileMissing | OpenFails | LoadMissing | UnloadMissing | DriverMissing | LoadRefuses | Loads

  function CodeOf(o: Outcome): Code {
    match o
    case FileMissing => NotFound
    case OpenFails => NoOpen
    case LoadMissing => NoLoadSymbol
    case UnloadMissing => NoUnloadSymbol
    case DriverMissing => NoDriverSymbol
    case LoadRefuses => LoadFailed
    case Loads => Ok
  }

  /** The events that concern one handle. */
  function Story(log: seq<Event>, h: nat): seq<Event> {
    if log == [] then []
    else Story(log[..|log| - 1], h) + if log[|log| - 1].h == h then [log[|log| - 1]] else []
  }

  predicate Live(story: seq<Event>, h: nat) {
    story == [Opened(h), Loaded(h)]
  }

  /** Opened and closed once; if the plugin's load function succeeded, unloaded once in between. */
  predicate Complete(story: seq<Event>, h: nat) {
    story == [Opened(h), Closed(h)] || story == [Opened(h), Loaded(h), Unloaded(h), Closed(h)]
  }

  /** Handles are numbered by the successful dlopen calls. */
  ghost predicate LibrariesOk(libraries: map<string, nat>, handles: nat, log: seq<Event>) {
    && (forall k :: k in libraries ==> libraries[k] < handles && Live(Story(log, libraries[k]), libraries[k]))
    && (forall k, l :: k in libraries && l in libraries && libraries[k] == libraries[l] ==> k == l)
    && (forall h: nat :: h < handles && h !in libraries.Values ==> Complete(Story(log, h), h))
    && (forall h: nat :: handles <= h ==> Story(log, h) == [])
  }

  lemma StoryOne(log: seq<Event>, e: Event, h: nat)
    ensures Story(log + [e], h) == Story(log, h) + if e.h == h then [e] else []
  {
    assert (log + [e])[..|log + [e]| - 1] == log;
  }

  lemma StoryTwo(log: seq<Event>, e: Event, f: Event, h: nat)
    requires e.h == f.h
    ensures Story(log + [e, f], h) == Story(log, h) + if e.h == h then [e, f] else []
  {
    StoryOne(log, e, h);
    StoryOne(log + [e], f, h);
    assert log + [e] + [f] == log + [e, f];
    assert Story(log, h) + [e] + [f] == Story(log, h) + [e, f];
  }

  /** An attempt that opens the library and then fails. */
  lemma FailedLoadOk(libraries: map<string, nat>, handles: nat, log: seq<Event>)
    requires LibrariesOk(libraries, handles, log)
    ensures LibrariesOk(libraries, handles + 1, log + [Opened(handles), Closed(handles)])
  {
    hide Story;
    var end := log + [Opened(handles), Closed(handles)];
    forall h: nat ensures Story(end, h) == Story(log, h) + if h == handles then [Opened(h), Closed(h)] else [] {
      StoryTwo(log, Opened(handles), Closed(handles), h);
    }
    hide Story;
  }

  lemma LoadOk(libraries: map<string, nat>, handles: nat, log: seq<Event>, key: string)
    requires LibrariesOk(libraries, handles, log) && key !in libraries
    ensures LibrariesOk(libraries[key := handles], handles + 1, log + [Opened(handles), Loaded(handles)])
  {
    hide Story;
    var end := log + [Opened(handles), Loaded(handles)];
    forall h: nat ensures Story(end, h) == Story(log, h) + if h == handles then [Opened(h), Loaded(h)] else [] {
      StoryTwo(log, Opened(handles), Loaded(handles), h);
    }
    var after := libraries[key := handles];
    assert key in after && after[key] in after.Values;
    forall h | h in libraries.Values ensures h in after.Values {
      var k :| k in libraries && libraries[k] == h;
      assert after[k] == h;
    }
  }

  lemma UnloadOk(libraries: map<string, nat>, handles: nat, log: seq<Event>, key: string)
    requires LibrariesOk(libraries, handles, log) && key in libraries
    ensures LibrariesOk(libraries - {key}, handles, log + [Unloaded(libraries[key]), Closed(libraries[key])])
  {
    hide Story;
    var gone := libraries[key];
    var end := log + [Unloaded(gone), Closed(gone)];
    forall h: nat ensures Story(end, h) == Story(log, h) + if h == gone then [Unloaded(h), Closed(h)] else [] {
      StoryTwo(log, Unloaded(gone), Closed(gone), h);
    }
    var after := libraries - {key};
    assert forall k :: k in after ==> libraries[k] != gone;
    forall h | h in libraries.Values && h != gone ensures h in after.Values {
      var k :| k in libraries && libraries[k] == h;
      assert after[k] == h;
    }
    assert Live(Story(log, gone), gone);
    assert [Opened(gone), Loaded(gone)] + [Unloaded(gone), Closed(gone)]
        == [Opened(gone), Loaded(gone), Unloaded(gone), Closed(gone)];
  }

  // ---------------------------------------------------------------- the registry

  class Registry {
    var ready: bool
    var manifests: map<string, Manifest>
    var drivers: seq<Registered>
    var libraries: map<string, nat>
    /** The manifests registered since the registry was set up, in order, refused ones left out. */
    ghost var accepted: seq<Manifest>
    /** Everything that ever happened to library handles, also before a cleanup. */
    ghost var log: seq<Event>
    /** Successful calls of dlopen so far; the next one returns this number. */
    var handles: nat

    ghost predicate Valid()
      reads this
    {
      && drivers == DriversOf(accepted)
      && (forall name :: Lower(name) in manifests <==> NameTaken(accepted, name))
      && LibrariesOk(libraries, handles, log)
      && (!ready ==> accepted == [] && manifests == map[] && libraries == map[])
    }

    constructor ()
      ensures Valid() && !ready && log == []
    {
      ready, manifests, drivers, libraries, handles := false, map[], [], map[], 0;
      accepted, log := [], [];
    }

    /** benthos_dc_registry_init without the built-in search paths */
    method Init()
      requires Valid()
      modifies this`ready
      ensures Valid() && ready
    {
      ready := true;
    }

    /** benthos_dc_registry_add_manifest and register_manifest, for the contents of a regular file that was
        not added before */
    method RegisterManifest(root: Node) returns (code: Code)
      requires Valid()
      modifies this`manifests, this`drivers, this`accepted
      ensures Valid()
      ensures code == if !ready then NotInit else match ReadManifest(root)
              case None => BadManifest
              case Some(m) => if NameTaken(old(accepted), m.name) then Exists else Ok
      ensures accepted == old(accepted) + if code == Ok then [ReadManifest(root).value] else []
    {
      hide ReadManifest, LibrariesOk, DriversOf, NameTaken, Lower;
      if !ready { return NotInit; }
      var file := new ManifestParser.ManifestFile();
      var parsed := file.ParseManifest(root);
      if !parsed { return BadManifest; }
      var m := file.Value();
      if Lower(m.name) in manifests { return Exists; }
      manifests := manifests[Lower(m.name) := m];
      var i: nat := 0;
      while i < |m.drivers|
        invariant i <= |m.drivers| && drivers == old(drivers) + Tagged(m.name, m.drivers[..i])
        invariant accepted == old(accepted) && manifests == old(manifests)[Lower(m.name) := m]
      {
        TaggedStep(m.name, m.drivers, i);
        ConcatAssoc(old(drivers), Tagged(m.name, m.drivers[..i]), [Registered(m.name, m.drivers[i])]);
        drivers := drivers + [Registered(m.name, m.drivers[i])];
        i := i + 1;
      }
      assert m.drivers[..i] == m.drivers;
      accepted := accepted + [m];
      DriversOfLast(old(accepted), m);
      forall name ensures NameTaken(accepted, name) <==> NameTaken(old(accepted), name) || SameName(m.name, name) {
        NameTakenLast(old(accepted), m, name);
      }
      return Ok;
    }

    /** benthos_dc_registry_driver_info */
    method DriverInfo(name: string) returns (code: Code, info: Option<Registered>)
      requires Valid()
      ensures !ready ==> code == NotInit && info == None
      ensures ready ==> match Resolve(drivers, name)
                        case Missing => code == NotFound && info == None
                        case Several => code == Ambiguous && info == None
                        case Unique(r) => code == Ok && info == Some(r)
    {
      hide Matching, Valid, Dot, PluginPart, DriverPart, Lower;
      if !ready { return NotInit, None; }
      var plugin, driver := "", name;
      var pos := Dot(name);
      if pos < |name| {
        plugin, driver := name[..pos], name[pos + 1..];
      }
      SplitName(name);
      MatchingNone(plugin, driver);
      var ret: Option<Registered> := None;
      var i: nat := 0;
      while i < |drivers|
        invariant i <= |drivers| && |Matching(drivers[..i], plugin, driver)| <= 1
        invariant ret == if Matching(drivers[..i], plugin, driver) == [] then None
                         else Some(Matching(drivers[..i], plugin, driver)[0])
      {
        var it := drivers[i];
        MatchingStep(drivers, i, plugin, driver);
        if (plugin == "" || SameName(it.plugin, plugin)) && SameName(it.driver.name, driver) {
          if ret.Some? {
            if i + 1 < |drivers| { MatchingStep(drivers, i + 1, plugin, driver); }
            assert i + 1 == |drivers| ==> drivers[..i + 1] == drivers;
            return Ambiguous, None;
          }
          ret := Some(it);
        }
        i := i + 1;
      }
      assert drivers[..i] == drivers;
      if ret.None? { return NotFound, None; }
      return Ok, ret;
    }

    /** load_plugin; `outcome` is what the file search, dlopen, dlsym and the plugin's own load function do
        if they are reached. */
    method LoadPlugin(plugin: string, outcome: Outcome) returns (code: Code)
      requires Valid() && ready
      modifies this`libraries, this`handles, this`log
      ensures Valid()
      ensures Lower(plugin) in old(libraries) ==>
        code == Ok && libraries == old(libraries) && log == old(log) && handles == old(handles)
      ensures Lower(plugin) !in old(libraries) ==>
        && code == CodeOf(outcome)
        && (match outcome
            case FileMissing => code == NotFound
            case OpenFails => code == NoOpen
            case LoadMissing => code == NoLoadSymbol
            case UnloadMissing => code == NoUnloadSymbol
            case DriverMissing => code == NoDriverSymbol
            case LoadRefuses => code == LoadFailed
            case Loads => code == Ok)
        && handles == old(handles) + (if outcome.FileMissing? || outcome.OpenFails? then 0 else 1)
        && libraries == (if outcome.Loads? then old(libraries)[Lower(plugin) := old(handles)] else old(libraries))
        && log == old(log) + (if outcome.FileMissing? || outcome.OpenFails? then []
                              else [Opened(old(handles)), if outcome.Loads? then Loaded(old(handles))
                                                         else Closed(old(handles))])
    {
      hide LibrariesOk, DriversOf, Lower, NameTaken;
      if Lower(plugin) in libraries { return Ok; }
      if outcome.FileMissing? { return NotFound; }
      if outcome.OpenFails? { return NoOpen; }
      var handle := handles;
      handles := handles + 1;
      if !outcome.Loads? {
        FailedLoadOk(libraries, handle, log);
        log := log + [Opened(handle), Closed(handle)];
        return CodeOf(outcome);
      }
      LoadOk(libraries, handle, log, Lower(plugin));
      log := log + [Opened(handle), Loaded(handle)];
      libraries := libraries[Lower(plugin) := handle];
      return Ok;
    }

    /** benthos_dc_registry_load; `provided` says whether the plugin then returns the driver. */
    method LoadDriver(name: string, outcome: Outcome, provided: bool) returns (code: Code)
      requires Valid()
      modifies this`libraries, this`handles, this`log
      ensures Valid()
      ensures code == if !ready then NotInit else match Resolve(drivers, name)
              case Missing => NotFound
              case Several => Ambiguous
              case Unique(r) =>
                if Lower(r.plugin) !in old(libraries) && !outcome.Loads? then CodeOf(outcome)
                else if provided then Ok else NotInPlugin
      ensures ready && Resolve(drivers, name).Unique? ==>
        Lower(Resolve(drivers, name).r.plugin) in libraries || CodeOf(outcome) == code
      ensures libraries.Keys <= old(libraries).Keys + set m | m in drivers :: Lower(m.plugin)
      ensures forall k :: k in old(libraries) ==> k in libraries && libraries[k] == old(libraries)[k]
      ensures old(log) <= log && old(handles) <= handles
    {
      hide Resolve, LibrariesOk, DriversOf, NameTaken, Lower;
      var found, info := DriverInfo(name);
      if found != Ok { return found; }
      ResolvedListed(drivers, name, info.value);
      code := LoadPlugin(info.value.plugin, outcome);
      if code != Ok { return; }
      assert Resolve(drivers, name) == Unique(info.value);
      return if provided then Ok else NotInPlugin;
    }

    /** benthos_dc_registry_cleanup: afterwards every handle ever opened has been closed exactly once, and
        every successful load has been matched by exactly one unload before that. */
    method Cleanup()
      requires Valid()
      modifies this
      ensures Valid() && !ready && drivers == [] && handles == old(handles) && old(log) <= log
      ensures forall h: nat :: h < handles ==> Complete(Story(log, h), h)
      ensures forall h: nat :: h >= handles ==> Story(log, h) == []
    {
      hide Story, Complete;
      if !ready { return; }
      while libraries != map[]
        invariant LibrariesOk(libraries, handles, log) && handles == old(handles) && old(log) <= log
        decreases |libraries|
      {
        var key :| key in libraries;
        UnloadOk(libraries, handles, log, key);
        log := log + [Unloaded(libraries[key]), Closed(libraries[key])];
        libraries := libraries - {key};
      }
      manifests, drivers, accepted, ready := map[], [], [], false;
    }
  }

  // ---------------------------------------------------------------- histories

  /** The manifests among the files that can be parsed. */
  function Readable(roots: seq<Node>): seq<Manifest> {
    if roots == [] then []
    else
      var last := ReadManifest(roots[|roots| - 1]);
      Readable(roots[..|roots| - 1]) + if last.Some? then [last.value] else []
  }

  lemma {:induction false} ReadableOk(roots: seq<Node>)
    ensures forall m :: m in Readable(roots) ==> ManifestOk(m)
  {
    if roots != [] {
      hide ManifestOk, ReadManifest;
      ReadableOk(roots[..|roots| - 1]);
      var last := roots[|roots| - 1];
      if ReadManifest(last).Some? { AcceptedManifestOk(last); }
    }
  }

  /** Files added one after the other to a fresh registry leave the manifests that the lookup lemmas are
      about. */
  method RegisterAll(r: Registry, roots: seq<Node>)
    requires r.Valid() && r.ready && r.accepted == []
    modifies r`manifests, r`drivers, r`accepted
    ensures r.Valid() && r.drivers == DriversOf(Accepted(Readable(roots)))
    ensures forall m :: m in Readable(roots) ==> ManifestOk(m)
  {
    hide ReadManifest, ManifestOk, DriversOf, NameTaken;
    var i: nat := 0;
    while i < |roots|
      invariant i <= |roots| && r.Valid() && r.accepted == Accepted(Readable(roots[..i]))
    {
      var code := r.RegisterManifest(roots[i]);
      assert roots[..i + 1][..i] == roots[..i];
      ghost var read := Readable(roots[..i]);
      if ReadManifest(roots[i]).Some? {
        AcceptedLast(read, ReadManifest(roots[i]).value);
      } else {
        assert Readable(roots[..i + 1]) == read;
      }
      i := i + 1;
    }
    assert roots[..i] == roots;
    ReadableOk(roots);
  }

  datatype Request = Request(name: string, outcome: Outcome, provided: bool)

  /** Any loads after each other and then the cleanup: no handle stays open, none is closed twice, and the
      unload function of a plugin runs once for each time its load function succeeded. */
  method LoadsThenCleanup(r: Registry, requests: seq<Request>)
    requires r.Valid() && r.ready
    modifies r
    ensures r.Valid() && !r.ready && old(r.log) <= r.log && old(r.handles) <= r.handles
    ensures forall h: nat :: h < r.handles ==> Complete(Story(r.log, h), h)
    ensures forall h: nat :: h >= r.handles ==> Story(r.log, h) == []
  {
    hide Resolve, LibrariesOk, DriversOf, NameTaken, Lower, Story, Complete;
    var i: nat := 0;
    while i < |requests|
      invariant i <= |requests| && r.Valid() && r.ready && old(r.log) <= r.log && old(r.handles) <= r.handles
    {
      var code := r.LoadDriver(requests[i].name, requests[i].outcome, requests[i].provided);
      i := i + 1;
    }
    r.Cleanup();
  }
}

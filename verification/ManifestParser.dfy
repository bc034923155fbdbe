/**
  The loops of the manifest parser over the children of an element, which fill the lists of a driver and of
  the manifest in place.
 */
module ManifestParser {
  import opened ManifestSpec
  import opened Names
  import opened Wrappers

  lemma ChildrenStep(children: seq<Node>, i: nat)
    requires i < |children|
    ensures children[i..] != [] && children[i..][0] == children[i] && children[i..][1..] == children[i + 1..]
  {
  }

  /** struct driver_wrapper_t while it is being filled. */
  class DriverWrapper {
    var name: string
    var desc: string
    var intf: Interface
    var params: seq<Param>
    var models: seq<Model>
    /** The name of the parameter of type 'model', empty without one. */
    var modelParam: string

    predicate Valid()
      reads this
    {
      && (forall k :: 0 <= k < |params| ==> params[k].name != "")
      && (modelParam != "" <==> exists k :: 0 <= k < |params| && params[k].kind.ModelType?)
    }

    function Value(): Driver
      reads this
    {
      Driver(name, desc, intf, params, models)
    }

    constructor ()
      ensures Valid() && Value() == Driver("", "", UnknownInterface, [], [])
    {
      name, desc, intf, params, models, modelParam := "", "", UnknownInterface, [], [], "";
    }

    /** driver_has_param */
    method HasParam(paramName: string) returns (r: bool)
      ensures r <==> exists k :: 0 <= k < |params| && SameName(params[k].name, paramName)
    {
      var k: nat := 0;
      while k < |params|
        invariant k <= |params| && forall j :: 0 <= j < k ==> !SameName(params[j].name, paramName)
      {
        if SameName(params[k].name, paramName) { return true; }
        k := k + 1;
      }
      return false;
    }

    /** driver_has_model */
    method HasModel(m: Model) returns (r: bool)
      ensures r <==> exists k :: 0 <= k < |models| && ModelClash(models[k], m)
    {
      var k: nat := 0;
      while k < |models|
        invariant k <= |models| && forall j :: 0 <= j < k ==> !ModelClash(models[j], m)
      {
        if models[k].number == m.number { return true; }
        if SameName(models[k].name, m.name) { return true; }
        k := k + 1;
      }
      return false;
    }

    /** parse_driver_params: fails exactly when a parameter cannot be read, repeats a name or is a second
        one of type 'model'; otherwise the list has grown by all of them. */
    method ParseParams(children: seq<Node>) returns (ok: bool)
      requires Valid()
      modifies this`params, this`modelParam
      ensures var all := AppendAll(ParamClash, old(params), ReadParams(children));
        ok == all.Some? && (ok ==> Valid() && params == all.value)
    {
      hide ReadParam, SameName;
      ghost var all := AppendAll(ParamClash, params, ReadParams(children));
      var i: nat := 0;
      assert children[0..] == children;
      while i < |children|
        invariant i <= |children| && Valid()
        invariant AppendAll(ParamClash, params, ReadParams(children[i..])) == all
      {
        ChildrenStep(children, i);
        ParamsStep(children[i..], params);
        if children[i].Element? {
          var read := ReadParam(children[i]);
          if read.None? { return false; }
          var p := read.value;
          ReadParamNamed(children[i]);
          var taken := HasParam(p.name);
          if taken { return false; }
          if p.kind.ModelType? {
            if modelParam != "" { return false; }
            modelParam := p.name;
          }
          ghost var before := params;
          params := params + [p];
          ParamAdded(before, p);
        }
        i := i + 1;
      }
      assert children[i..] == [];
      return true;
    }

    /** parse_driver_models */
    method ParseModels(attrs: seq<Attr>, children: seq<Node>) returns (ok: bool)
      modifies this`models
      ensures var manufacturer := DefaultManufacturer(attrs);
        if manufacturer.None? then !ok
        else
          var all := AppendAll(ModelClash, old(models), ReadModels(children, manufacturer.value));
          ok == all.Some? && (ok ==> models == all.value)
    {
      hide ReadModel, SameName, ModelClash;
      var default := DefaultManufacturer(attrs);
      if default.None? { return false; }
      var manufacturer := default.value;
      ghost var all := AppendAll(ModelClash, models, ReadModels(children, manufacturer));
      var i: nat := 0;
      assert children[0..] == children;
      while i < |children|
        invariant i <= |children|
        invariant AppendAll(ModelClash, models, ReadModels(children[i..], manufacturer)) == all
      {
        ChildrenStep(children, i);
        ModelsStep(children[i..], manufacturer, models);
        if children[i].Element? {
          var read := ReadModel(children[i], manufacturer);
          if read.None? { return false; }
          var taken := HasModel(read.value);
          if taken { return false; }
          models := models + [read.value];
        }
        i := i + 1;
      }
      assert children[i..] == [];
      return true;
    }

    /** One element inside <driver>. */
    method ParseElement(n: Node) returns (ok: bool)
      requires Valid() && n.Element?
      modifies this
      ensures var r := DriverElements(old(Value()), [n]);
        ok == r.Some? && (ok ==> Valid() && Value() == r.value)
    {
      hide TextOf, AppendAll, DefaultManufacturer, InterfaceOf;
      var Element(kind, attrs, inner) := n;
      var text := TextOf(inner);
      if kind == "description" {
        if desc != "" || text.None? { return false; }
        desc := text.value;
      } else if kind == "interface" {
        if intf != UnknownInterface || text.None? || InterfaceOf(text.value) == UnknownInterface { return false; }
        intf := InterfaceOf(text.value);
      } else if kind == "parameters" {
        ok := ParseParams(inner);
        return;
      } else if kind == "models" {
        ok := ParseModels(attrs, inner);
        return;
      } else {
        return false;
      }
      return true;
    }

    /** parse_driver on the wrapper, apart from the check against the other drivers. */
    method ParseDriver(n: Node) returns (ok: bool)
      requires Valid() && n.Element? && n.name == "driver" && Value() == Driver("", "", UnknownInterface, [], [])
      modifies this
      ensures var r := ReadDriver(n);
        ok == r.Some? && (ok ==> Value() == r.value)
    {
      hide DriverElements;
      var k: nat := 0;
      assert n.attrs[0..] == n.attrs;
      while k < |n.attrs|
        invariant k <= |n.attrs| && Valid() && Value() == Driver(name, "", UnknownInterface, [], [])
        invariant DriverName(n.attrs[k..], name) == DriverName(n.attrs, "")
      {
        assert n.attrs[k..][1..] == n.attrs[k + 1..];
        if n.attrs[k].name != "name" { return false; }
        name := n.attrs[k].value;
        k := k + 1;
      }
      ghost var all := DriverElements(Value(), n.children);
      var i: nat := 0;
      assert n.children[0..] == n.children;
      while i < |n.children|
        invariant i <= |n.children| && Valid()
        invariant DriverElements(Value(), n.children[i..]) == all
      {
        ChildrenStep(n.children, i);
        ElementsStep(Value(), n.children[i..]);
        if n.children[i].Element? {
          var read := ParseElement(n.children[i]);
          if !read { return false; }
        }
        i := i + 1;
      }
      assert n.children[i..] == [];
      ElementsNone(Value());
      return true;
    }
  }

  lemma ParamsStep(children: seq<Node>, have: seq<Param>)
    requires children != []
    ensures !children[0].Element? ==> ReadParams(children) == ReadParams(children[1..])
    ensures children[0].Element? ==>
      var x := ReadParam(children[0]);
      AppendAll(ParamClash, have, ReadParams(children)) ==
        if x.None? || exists k :: 0 <= k < |have| && ParamClash(have[k], x.value) then None
        else AppendAll(ParamClash, have + [x.value], ReadParams(children[1..]))
  {
    hide ReadParam, ParamClash;
    if children[0].Element? {
      var items := ReadParams(children);
      assert items == [ReadParam(children[0])] + ReadParams(children[1..]);
      assert items[1..] == ReadParams(children[1..]);
    }
  }

  lemma ModelsStep(children: seq<Node>, manufacturer: string, have: seq<Model>)
    requires children != []
    ensures !children[0].Element? ==> ReadModels(children, manufacturer) == ReadModels(children[1..], manufacturer)
    ensures children[0].Element? ==>
      var x := ReadModel(children[0], manufacturer);
      AppendAll(ModelClash, have, ReadModels(children, manufacturer)) ==
        if x.None? || exists k :: 0 <= k < |have| && ModelClash(have[k], x.value) then None
        else AppendAll(ModelClash, have + [x.value], ReadModels(children[1..], manufacturer))
  {
    hide ReadModel, ModelClash;
    if children[0].Element? {
      var items := ReadModels(children, manufacturer);
      assert items == [ReadModel(children[0], manufacturer)] + ReadModels(children[1..], manufacturer);
      assert items[1..] == ReadModels(children[1..], manufacturer);
    }
  }

  lemma DriversStep(children: seq<Node>, have: seq<Driver>)
    requires children != []
    ensures !children[0].Element? ==> ReadDrivers(children) == ReadDrivers(children[1..])
    ensures children[0].Element? ==>
      var x := ReadDriver(children[0]);
      AppendAll(DriverClash, have, ReadDrivers(children)) ==
        if x.None? || exists k :: 0 <= k < |have| && DriverClash(have[k], x.value) then None
        else AppendAll(DriverClash, have + [x.value], ReadDrivers(children[1..]))
  {
    hide ReadDriver, DriverClash;
    if children[0].Element? {
      var items := ReadDrivers(children);
      assert items == [ReadDriver(children[0])] + ReadDrivers(children[1..]);
      assert items[1..] == ReadDrivers(children[1..]);
    }
  }

  lemma ParamAdded(params: seq<Param>, p: Param)
    ensures (exists k :: 0 <= k < |params + [p]| && (params + [p])[k].kind.ModelType?) <==>
      p.kind.ModelType? || exists k :: 0 <= k < |params| && params[k].kind.ModelType?
  {
    var all := params + [p];
    assert all[|params|] == p;
    assert forall k :: 0 <= k < |params| ==> all[k] == params[k];
  }

  lemma ReadParamNamed(n: Node)
    requires n.Element? && ReadParam(n).Some?
    ensures ReadParam(n).value.name != ""
  {
  }

  lemma ElementsNone(d: Driver)
    ensures DriverElements(d, []) == Some(d)
  {
  }

  /** The elements are read one after the other. */
  lemma ElementsStep(d: Driver, children: seq<Node>)
    requires children != []
    ensures !children[0].Element? ==> DriverElements(d, children) == DriverElements(d, children[1..])
    ensures children[0].Element? ==>
      var first := DriverElements(d, [children[0]]);
      DriverElements(d, children) == if first.None? then None else DriverElements(first.value, children[1..])
  {
    hide TextOf, AppendAll, DefaultManufacturer, InterfaceOf, ReadParams, ReadModels;
    assert [children[0]][1..] == [];
  }

  /** struct plugin_manifest_t_ while it is being filled. */
  class ManifestFile {
    var name: string
    var library: string
    var drivers: seq<Driver>

    function Value(): Manifest
      reads this
    {
      Manifest(name, library, drivers)
    }

    constructor ()
      ensures Value() == Manifest("", "", [])
    {
      name, library, drivers := "", "", [];
    }

    /** plugin_has_driver */
    method HasDriver(d: Driver) returns (r: bool)
      ensures r <==> exists k :: 0 <= k < |drivers| && DriverClash(drivers[k], d)
    {
      var k: nat := 0;
      while k < |drivers|
        invariant k <= |drivers| && forall j :: 0 <= j < k ==> !DriverClash(drivers[j], d)
      {
        if SameName(drivers[k].name, d.name) { return true; }
        k := k + 1;
      }
      return false;
    }

    method ParseAttributes(attrs: seq<Attr>) returns (ok: bool)
      requires Value() == Manifest("", "", [])
      modifies this
      ensures var r := RootAttrs(attrs, Manifest("", "", []));
        ok == r.Some? && (ok ==> Value() == r.value)
    {
      var k: nat := 0;
      assert attrs[0..] == attrs;
      while k < |attrs|
        invariant k <= |attrs|
        invariant RootAttrs(attrs[k..], Value()) == RootAttrs(attrs, Manifest("", "", []))
      {
        assert attrs[k..][1..] == attrs[k + 1..];
        if attrs[k].name == "name" {
          name := attrs[k].value;
        } else if attrs[k].name == "library" {
          library := attrs[k].value;
        } else if attrs[k].name != "version" || !VersionReadable(attrs[k].value) {
          return false;
        }
        k := k + 1;
      }
      return true;
    }

    /** The check of the root element and parse_manifest. */
    method ParseManifest(root: Node) returns (ok: bool)
      requires Value() == Manifest("", "", [])
      modifies this
      ensures var r := ReadManifest(root);
        ok == r.Some? && (ok ==> Value() == r.value)
    {
      hide RootAttrs, ReadDriver, DriverClash, AppendAll, ReadDrivers;
      if !root.Element? || root.name != "plugin" { return false; }
      ok := ParseAttributes(root.attrs);
      if !ok { return; }
      if name == "" { return false; }
      if library == "" { return false; }
      assert drivers == [] by { AttrsKeepDrivers(root.attrs, Manifest("", "", [])); }
      ghost var all := AppendAll(DriverClash, [], ReadDrivers(root.children));
      ghost var before := Value();
      var i: nat := 0;
      assert root.children[0..] == root.children;
      while i < |root.children|
        invariant i <= |root.children| && name == before.name && library == before.library
        invariant AppendAll(DriverClash, drivers, ReadDrivers(root.children[i..])) == all
      {
        ChildrenStep(root.children, i);
        DriversStep(root.children[i..], drivers);
        var cur := root.children[i];
        if cur.Element? {
          if cur.name != "driver" {
            NotADriver(cur);
            return false;
          }
          var d := new DriverWrapper();
          var read := d.ParseDriver(cur);
          if !read { return false; }
          var taken := HasDriver(d.Value());
          if taken { return false; }
          drivers := drivers + [d.Value()];
        }
        i := i + 1;
      }
      assert root.children[i..] == [];
      DriversNone(drivers);
      return true;
    }
  }

  lemma {:induction false} AttrsKeepDrivers(attrs: seq<Attr>, m: Manifest)
    ensures RootAttrs(attrs, m).Some? ==> RootAttrs(attrs, m).value.drivers == m.drivers
    decreases |attrs|
  {
    if attrs != [] {
      AttrsKeepDrivers(attrs[1..], m);
      AttrsKeepDrivers(attrs[1..], m.(name := attrs[0].value));
      AttrsKeepDrivers(attrs[1..], m.(library := attrs[0].value));
    }
  }

  lemma NotADriver(n: Node)
    requires n.Element? && n.name != "driver"
    ensures ReadDriver(n) == None
  {
  }

  lemma DriversNone(have: seq<Driver>)
    ensures AppendAll(DriverClash, have, ReadDrivers([])) == Some(have)
  {
  }
}

/**
  Writing a manifest as an XML tree, and the round trip: what is written is read back exactly.
 */
module ManifestPrinter {
  import opened Words
  import opened Wrappers
  import opened ManifestSpec
  import Decimal

  function TypeName(kind: ParamType): string
    requires !kind.UnknownType?
  {
    match kind
    case StringType => "string"
    case IntType => "int"
    case UIntType => "uint"
    case FloatType => "float"
    case ModelType => "model"
  }

  function InterfaceName(intf: Interface): string
    requires !intf.UnknownInterface?
  {
    match intf
    case Serial => "serial"
    case Usb => "usb"
    case Bluetooth => "bluetooth"
    case IrDA => "irda"
    case Network => "net"
  }

  function TextNodes(s: string): seq<Node> {
    if s == "" then [] else [Text(s)]
  }

  /** Children with something that is no element before, between and after them, as in an indented file. */
  function Spaced(space: Node, elements: seq<Node>): seq<Node> {
    if elements == [] then [space] else [space, elements[0]] + Spaced(space, elements[1..])
  }

  function PrintParam(p: Param): (n: Node)
    requires !p.kind.UnknownType?
    ensures n.Element?
  {
    Element("parameter",
            [Attr("name", p.name), Attr("type", TypeName(p.kind))]
            + (if p.default == "" then [] else [Attr("default", p.default)]),
            TextNodes(p.desc))
  }

  /** The manufacturer is written only where it is not the default of the list. */
  function PrintModel(m: Model, default: string): (n: Node)
    ensures n.Element?
  {
    Element("model",
            [Attr("id", Decimal.Show(U32(m.number)))]
            + (if m.manufacturer == default then [] else [Attr("manufacturer", m.manufacturer)]),
            [Text(m.name)])
  }

  function PrintParams(ps: seq<Param>): seq<Node>
    requires forall p :: p in ps ==> ParamOk(p)
  {
    if ps == [] then [] else assert ParamOk(ps[0]); [PrintParam(ps[0])] + PrintParams(ps[1..])
  }

  function PrintModels(ms: seq<Model>, default: string): seq<Node> {
    if ms == [] then [] else [PrintModel(ms[0], default)] + PrintModels(ms[1..], default)
  }

  function PrintDriver(d: Driver, default: string, space: Node): (n: Node)
    requires forall p :: p in d.params ==> ParamOk(p)
    ensures n.Element?
  {
    Element("driver", [Attr("name", d.name)], Spaced(space,
      (if d.desc == "" then [] else [Element("description", [], [Text(d.desc)])])
      + (if d.intf.UnknownInterface? then [] else [Element("interface", [], [Text(InterfaceName(d.intf))])])
      + [Element("parameters", [], Spaced(space, PrintParams(d.params))),
         Element("models", if default == "" then [] else [Attr("manufacturer", default)],
                 Spaced(space, PrintModels(d.models, default)))]))
  }

  function PrintDrivers(ds: seq<Driver>, defaults: seq<string>, space: Node): seq<Node>
    requires |ds| == |defaults| && forall d, p :: d in ds && p in d.params ==> ParamOk(p)
  {
    if ds == [] then []
    else [PrintDriver(ds[0], defaults[0], space)] + PrintDrivers(ds[1..], defaults[1..], space)
  }

  /** The tree of a manifest; defaults[k] is the default manufacturer of driver k. */
  function PrintManifest(m: Manifest, defaults: seq<string>, space: Node): Node
    requires |m.drivers| == |defaults| && forall d, p :: d in m.drivers && p in d.params ==> ParamOk(p)
  {
    Element("plugin", [Attr("name", m.name), Attr("library", m.library)],
            Spaced(space, PrintDrivers(m.drivers, defaults, space)))
  }

  // ---------------------------------------------------------------- what can be written

  predicate ParamOk(p: Param) {
    p.name != "" && !p.kind.UnknownType?
  }

  /** The number is an int other than -1; without a manufacturer there is no default to fall back to. */
  predicate ModelOk(m: Model, default: string) {
    -0x8000_0000 <= m.number < 0x8000_0000 && m.number != -1 && (m.manufacturer == "" ==> default == "")
  }

  predicate Writable(d: Driver, default: string) {
    (forall p :: p in d.params ==> ParamOk(p)) && (forall m :: m in d.models ==> ModelOk(m, default))
  }

  // ---------------------------------------------------------------- one element

  /** A printed 32-bit number is read as the int with those bits. */
  lemma NumberReads(n: Word)
    ensures ReadNumber(Decimal.Show(n)) == Some(ToInt32(n))
  {
    hide Decimal.Show, Decimal.StrToUl;
    Decimal.StrToUlOfShow(n);
  }

  lemma IntReads(number: int)
    requires -0x8000_0000 <= number < 0x8000_0000
    ensures ToInt32(U32(number)) == number
  {
  }

  lemma TypeReads(kind: ParamType)
    requires !kind.UnknownType?
    ensures TypeOf(TypeName(kind)) == kind
  {
  }

  lemma InterfaceReads(intf: Interface)
    requires !intf.UnknownInterface?
    ensures InterfaceOf(InterfaceName(intf)) == intf
  {
  }

  /** Every other name is no type and no interface. */
  lemma NamesExactly(s: string, kind: ParamType, intf: Interface)
    requires !kind.UnknownType? && !intf.UnknownInterface?
    ensures TypeOf(s) == kind <==> s == TypeName(kind)
    ensures TypeOf(s).UnknownType? <==> s !in ["string", "int", "uint", "float", "model"]
    ensures InterfaceOf(s) == intf <==> s == InterfaceName(intf)
    ensures InterfaceOf(s).UnknownInterface? <==> s !in ["serial", "usb", "bluetooth", "irda", "net"]
  {
  }

  /** A list of models has no attribute or a default manufacturer. */
  lemma DefaultExactly(attrs: seq<Attr>)
    ensures DefaultManufacturer(attrs).Some? <==> attrs == [] || (|attrs| == 1 && attrs[0].name == "manufacturer")
    ensures DefaultManufacturer(attrs).Some? ==>
      DefaultManufacturer(attrs).value == if attrs == [] then "" else attrs[0].value
  {
  }

  lemma AttrsUnfold(a: Attr, rest: seq<Attr>)
    ensures ([a] + rest)[0] == a && ([a] + rest)[1..] == rest
  {
  }

  lemma ParamReads(p: Param)
    requires ParamOk(p)
    ensures ReadParam(PrintParam(p)) == Some(p)
  {
    TypeReads(p.kind);
    hide TypeOf, TypeName;
    var blank := Param("", "", "", UnknownType);
    var name, kind := Attr("name", p.name), Attr("type", TypeName(p.kind));
    var rest := if p.default == "" then [] else [Attr("default", p.default)];
    var attrs := [name, kind] + rest;
    assert attrs[1..] == [kind] + rest && attrs[1..][1..] == rest;
    assert rest != [] ==> rest[1..] == [];
    assert ParamAttrs(rest, Param(p.name, "", "", p.kind)) == Some(Param(p.name, "", p.default, p.kind));
    assert ParamAttrs([kind] + rest, Param(p.name, "", "", UnknownType)) == Some(Param(p.name, "", p.default, p.kind));
    assert ParamAttrs(attrs, blank) == Some(Param(p.name, "", p.default, p.kind));
  }

  lemma ModelReads(m: Model, default: string)
    requires ModelOk(m, default)
    ensures ReadModel(PrintModel(m, default), default) == Some(m)
  {
    NumberReads(U32(m.number));
    IntReads(m.number);
    hide U32, ToInt32, ReadNumber, Decimal.Show;
    var id := Attr("id", Decimal.Show(U32(m.number)));
    var rest := if m.manufacturer == default then [] else [Attr("manufacturer", m.manufacturer)];
    var attrs := [id] + rest;
    AttrsUnfold(id, rest);
    assert rest != [] ==> rest[1..] == [];
    var read := Model(m.number, "", if m.manufacturer == default then "" else m.manufacturer);
    assert ModelAttrs(rest, Model(m.number, "", "")) == Some(read);
    assert ModelAttrs(attrs, Model(-1, "", "")) == Some(read);
  }

  // ---------------------------------------------------------------- lists of elements

  lemma SpacedUnfold(space: Node, elements: seq<Node>)
    ensures elements == [] ==> Spaced(space, elements) == [space] && [space][1..] == []
    ensures elements != [] ==>
      var s := Spaced(space, elements);
      |s| >= 2 && s[0] == space && s[1..][0] == elements[0] && s[1..][1..] == Spaced(space, elements[1..])
  {
  }

  lemma {:induction false} ParamsSpaced(space: Node, es: seq<Node>)
    requires !space.Element?
    ensures ReadParams(Spaced(space, es)) == ReadParams(es)
  {
    hide ReadParam;
    SpacedUnfold(space, es);
    if es != [] { ParamsSpaced(space, es[1..]); }
  }

  lemma {:induction false} ModelsSpaced(space: Node, es: seq<Node>, default: string)
    requires !space.Element?
    ensures ReadModels(Spaced(space, es), default) == ReadModels(es, default)
  {
    hide ReadModel;
    SpacedUnfold(space, es);
    if es != [] { ModelsSpaced(space, es[1..], default); }
  }

  lemma {:induction false} DriversSpaced(space: Node, es: seq<Node>)
    requires !space.Element?
    ensures ReadDrivers(Spaced(space, es)) == ReadDrivers(es)
  {
    hide ReadDriver;
    SpacedUnfold(space, es);
    if es != [] { DriversSpaced(space, es[1..]); }
  }

  function Somes<T>(xs: seq<T>): seq<Option<T>> {
    seq(|xs|, k requires 0 <= k < |xs| => Some(xs[k]))
  }

  lemma SomesFirst<T>(xs: seq<T>)
    ensures xs != [] ==> Somes(xs) == [Some(xs[0])] + Somes(xs[1..])
    ensures xs == [] ==> Somes(xs) == []
  {
  }

  lemma {:induction false} ParamsRead(ps: seq<Param>)
    requires forall p :: p in ps ==> ParamOk(p)
    ensures ReadParams(PrintParams(ps)) == Somes(ps)
  {
    hide ReadParam, PrintParam, Somes;
    SomesFirst(ps);
    if ps != [] {
      ParamReads(ps[0]);
      ParamsRead(ps[1..]);
      assert PrintParams(ps)[1..] == PrintParams(ps[1..]);
    }
  }

  lemma {:induction false} ModelsRead(ms: seq<Model>, default: string)
    requires forall m :: m in ms ==> ModelOk(m, default)
    ensures ReadModels(PrintModels(ms, default), default) == Somes(ms)
  {
    hide ReadModel, PrintModel, Somes, ModelOk;
    SomesFirst(ms);
    if ms != [] {
      ModelReads(ms[0], default);
      ModelsRead(ms[1..], default);
      assert PrintModels(ms, default)[1..] == PrintModels(ms[1..], default);
    }
  }

  /** A list without clashes is taken over whole. */
  lemma AppendWhole<T>(clash: (T, T) -> bool, xs: seq<T>)
    requires NoClash(clash, xs)
    ensures AppendAll(clash, [], Somes(xs)) == Some(xs)
  {
    AppendAllExactly(clash, [], Somes(xs));
    assert [] + Values(Somes(xs)) == xs;
    assert NoClash(clash, []);
  }

  // ---------------------------------------------------------------- drivers

  lemma {:induction false} ElementsSpaced(d: Driver, space: Node, es: seq<Node>)
    requires !space.Element?
    ensures DriverElements(d, Spaced(space, es)) == DriverElements(d, es)
    decreases |es|
  {
    hide TextOf, AppendAll, DefaultManufacturer, InterfaceOf, ReadParams, ReadModels;
    SpacedUnfold(space, es);
    if es != [] {
      forall d' ensures DriverElements(d', Spaced(space, es[1..])) == DriverElements(d', es[1..]) {
        ElementsSpaced(d', space, es[1..]);
      }
    }
  }

  lemma DescriptionRead(d: Driver, desc: string, rest: seq<Node>)
    requires d.desc == ""
    ensures DriverElements(d, (if desc == "" then [] else [Element("description", [], [Text(desc)])]) + rest) ==
      DriverElements(d.(desc := desc), rest)
  {
    hide AppendAll, DefaultManufacturer, InterfaceOf, ReadParams, ReadModels;
    if desc == "" {
      assert [] + rest == rest && d.(desc := desc) == d;
    } else {
      assert ([Element("description", [], [Text(desc)])] + rest)[1..] == rest;
    }
  }

  lemma InterfaceRead(d: Driver, intf: Interface, rest: seq<Node>)
    requires d.intf.UnknownInterface?
    ensures DriverElements(d, (if intf.UnknownInterface? then []
                               else [Element("interface", [], [Text(InterfaceName(intf))])]) + rest) ==
      DriverElements(d.(intf := intf), rest)
  {
    hide AppendAll, DefaultManufacturer, InterfaceOf, ReadParams, ReadModels, InterfaceName;
    if intf.UnknownInterface? {
      assert [] + rest == rest && d.(intf := intf) == d;
    } else {
      InterfaceReads(intf);
      assert ([Element("interface", [], [Text(InterfaceName(intf))])] + rest)[1..] == rest;
    }
  }

  lemma ParametersRead(d: Driver, ps: seq<Param>, space: Node, rest: seq<Node>)
    requires d.params == [] && (forall p :: p in ps ==> ParamOk(p)) && NoClash(ParamClash, ps) && !space.Element?
    ensures DriverElements(d, [Element("parameters", [], Spaced(space, PrintParams(ps)))] + rest) ==
      DriverElements(d.(params := ps), rest)
  {
    hide AppendAll, DefaultManufacturer, InterfaceOf, ReadParams, ReadModels, TextOf, Spaced, Somes, NoClash;
    ParamsSpaced(space, PrintParams(ps));
    ParamsRead(ps);
    AppendWhole(ParamClash, ps);
    assert ([Element("parameters", [], Spaced(space, PrintParams(ps)))] + rest)[1..] == rest;
  }

  lemma ModelListRead(d: Driver, ms: seq<Model>, default: string, space: Node)
    requires d.models == [] && (forall m :: m in ms ==> ModelOk(m, default)) && NoClash(ModelClash, ms) && !space.Element?
    ensures DriverElements(d, [Element("models", if default == "" then [] else [Attr("manufacturer", default)],
                                       Spaced(space, PrintModels(ms, default)))]) == Some(d.(models := ms))
  {
    hide AppendAll, InterfaceOf, ReadParams, ReadModels, TextOf, Spaced, Somes, NoClash, ModelOk;
    ModelsSpaced(space, PrintModels(ms, default), default);
    ModelsRead(ms, default);
    AppendWhole(ModelClash, ms);
    var attrs := if default == "" then [] else [Attr("manufacturer", default)];
    assert DefaultManufacturer(attrs) == Some(default);
    assert [Element("models", attrs, Spaced(space, PrintModels(ms, default)))][1..] == [];
  }

  lemma DriverReads(d: Driver, default: string, space: Node)
    requires Writable(d, default) && DriverOk(d) && !space.Element?
    ensures ReadDriver(PrintDriver(d, default, space)) == Some(d)
  {
    hide DriverElements, Spaced, PrintParams, PrintModels, NoClash, ModelOk, ParamOk, InterfaceName;
    var d0 := Driver(d.name, "", UnknownInterface, [], []);
    var params := [Element("parameters", [], Spaced(space, PrintParams(d.params)))];
    var models := [Element("models", if default == "" then [] else [Attr("manufacturer", default)],
                           Spaced(space, PrintModels(d.models, default)))];
    var desc := if d.desc == "" then [] else [Element("description", [], [Text(d.desc)])];
    var intf := if d.intf.UnknownInterface? then [] else [Element("interface", [], [Text(InterfaceName(d.intf))])];
    var es := desc + intf + (params + models);
    assert params + models == [params[0], models[0]];
    ConcatAssoc(desc, intf, params + models);
    ElementsSpaced(d0, space, es);
    DescriptionRead(d0, d.desc, intf + (params + models));
    InterfaceRead(d0.(desc := d.desc), d.intf, params + models);
    ParametersRead(d0.(desc := d.desc, intf := d.intf), d.params, space, models);
    ModelListRead(d0.(desc := d.desc, intf := d.intf, params := d.params), d.models, default, space);
    assert DriverName([Attr("name", d.name)], "") == Some(d.name);
  }

  lemma {:induction false} DriversRead(ds: seq<Driver>, defaults: seq<string>, space: Node)
    requires |ds| == |defaults| && !space.Element?
    requires forall k :: 0 <= k < |ds| ==> Writable(ds[k], defaults[k]) && DriverOk(ds[k])
    ensures forall d, p :: d in ds && p in d.params ==> ParamOk(p)
    ensures ReadDrivers(PrintDrivers(ds, defaults, space)) == Somes(ds)
  {
    hide ReadDriver, PrintDriver, Somes, DriverOk, ParamOk, ModelOk;
    SomesFirst(ds);
    if ds != [] {
      DriverReads(ds[0], defaults[0], space);
      DriversRead(ds[1..], defaults[1..], space);
      assert PrintDrivers(ds, defaults, space)[1..] == PrintDrivers(ds[1..], defaults[1..], space);
    }
  }

  /** Round trip: every manifest that has its names, no clashes and only what can be written, is read back
      exactly from the tree it is written as. */
  lemma ManifestReads(m: Manifest, defaults: seq<string>, space: Node)
    requires ManifestOk(m) && |m.drivers| == |defaults| && !space.Element?
    requires forall k :: 0 <= k < |defaults| ==> Writable(m.drivers[k], defaults[k])
    ensures forall d, p :: d in m.drivers && p in d.params ==> ParamOk(p)
    ensures ReadManifest(PrintManifest(m, defaults, space)) == Some(m)
  {
    hide ReadDrivers, PrintDrivers, Somes, DriverOk, NoClash, AppendAll, Spaced, Writable;
    DriversRead(m.drivers, defaults, space);
    DriversSpaced(space, PrintDrivers(m.drivers, defaults, space));
    AppendWhole(DriverClash, m.drivers);
    var name, library := Attr("name", m.name), Attr("library", m.library);
    assert [name, library][1..] == [library] && [library][1..] == [];
    assert RootAttrs([library], Manifest(m.name, "", [])) == Some(Manifest(m.name, m.library, []));
    assert RootAttrs([name, library], Manifest("", "", [])) == Some(Manifest(m.name, m.library, []));
  }

  // ---------------------------------------------------------------- what is refused

  predicate Foreign(children: seq<Node>, names: seq<string>) {
    exists k :: 0 <= k < |children| && children[k].Element? && children[k].name !in names
  }

  predicate ForeignAttr(attrs: seq<Attr>, names: seq<string>) {
    exists k :: 0 <= k < |attrs| && attrs[k].name !in names
  }

  lemma ForeignFirst(children: seq<Node>, names: seq<string>)
    requires Foreign(children, names)
    ensures children != []
    ensures (children[0].Element? && children[0].name !in names) || Foreign(children[1..], names)
  {
    var k :| 0 <= k < |children| && children[k].Element? && children[k].name !in names;
    if k > 0 { assert children[1..][k - 1] == children[k]; }
  }

  lemma ForeignAttrFirst(attrs: seq<Attr>, names: seq<string>)
    requires ForeignAttr(attrs, names)
    ensures attrs != []
    ensures attrs[0].name !in names || ForeignAttr(attrs[1..], names)
  {
    var k :| 0 <= k < |attrs| && attrs[k].name !in names;
    if k > 0 { assert attrs[1..][k - 1] == attrs[k]; }
  }

  lemma {:induction false} ForeignParamAttr(attrs: seq<Attr>, p: Param)
    requires ForeignAttr(attrs, ["name", "type", "default"])
    ensures ParamAttrs(attrs, p) == None
    decreases |attrs|
  {
    hide TypeOf, ForeignAttr;
    ForeignAttrFirst(attrs, ["name", "type", "default"]);
    if ForeignAttr(attrs[1..], ["name", "type", "default"]) {
      ForeignParamAttr(attrs[1..], p.(name := attrs[0].value));
      ForeignParamAttr(attrs[1..], p.(kind := TypeOf(attrs[0].value)));
      ForeignParamAttr(attrs[1..], p.(default := attrs[0].value));
    }
  }

  lemma {:induction false} ForeignModelAttr(attrs: seq<Attr>, m: Model)
    requires ForeignAttr(attrs, ["id", "manufacturer"])
    ensures ModelAttrs(attrs, m) == None
    decreases |attrs|
  {
    hide ReadNumber, ForeignAttr;
    ForeignAttrFirst(attrs, ["id", "manufacturer"]);
    if ForeignAttr(attrs[1..], ["id", "manufacturer"]) {
      if ReadNumber(attrs[0].value).Some? {
        ForeignModelAttr(attrs[1..], m.(number := ReadNumber(attrs[0].value).value));
      }
      ForeignModelAttr(attrs[1..], m.(manufacturer := attrs[0].value));
    }
  }

  lemma {:induction false} ForeignRootAttr(attrs: seq<Attr>, m: Manifest)
    requires ForeignAttr(attrs, ["name", "library", "version"])
    ensures RootAttrs(attrs, m) == None
    decreases |attrs|
  {
    hide VersionReadable, ForeignAttr;
    ForeignAttrFirst(attrs, ["name", "library", "version"]);
    if ForeignAttr(attrs[1..], ["name", "library", "version"]) {
      ForeignRootAttr(attrs[1..], m.(name := attrs[0].value));
      ForeignRootAttr(attrs[1..], m.(library := attrs[0].value));
      ForeignRootAttr(attrs[1..], m);
    }
  }

  lemma {:induction false} ForeignDriverAttr(attrs: seq<Attr>, name: string)
    requires ForeignAttr(attrs, ["name"])
    ensures DriverName(attrs, name) == None
    decreases |attrs|
  {
    hide ForeignAttr;
    ForeignAttrFirst(attrs, ["name"]);
    if ForeignAttr(attrs[1..], ["name"]) { ForeignDriverAttr(attrs[1..], attrs[0].value); }
  }

  lemma {:induction false} ForeignParams(children: seq<Node>)
    requires Foreign(children, ["parameter"])
    ensures exists k :: 0 <= k < |ReadParams(children)| && ReadParams(children)[k].None?
  {
    hide Foreign;
    ForeignFirst(children, ["parameter"]);
    var here := if children[0].Element? then [ReadParam(children[0])] else [];
    if children[0].Element? && children[0].name != "parameter" {
      assert ReadParams(children)[0].None?;
    } else {
      ForeignParams(children[1..]);
      var k :| 0 <= k < |ReadParams(children[1..])| && ReadParams(children[1..])[k].None?;
      assert ReadParams(children)[|here| + k].None?;
    }
  }

  lemma {:induction false} ForeignModels(children: seq<Node>, default: string)
    requires Foreign(children, ["model"])
    ensures exists k :: 0 <= k < |ReadModels(children, default)| && ReadModels(children, default)[k].None?
  {
    hide Foreign;
    ForeignFirst(children, ["model"]);
    var here := if children[0].Element? then [ReadModel(children[0], default)] else [];
    if children[0].Element? && children[0].name != "model" {
      assert ReadModels(children, default)[0].None?;
    } else {
      ForeignModels(children[1..], default);
      var k :| 0 <= k < |ReadModels(children[1..], default)| && ReadModels(children[1..], default)[k].None?;
      assert ReadModels(children, default)[|here| + k].None?;
    }
  }

  lemma {:induction false} ForeignDrivers(children: seq<Node>)
    requires Foreign(children, ["driver"])
    ensures exists k :: 0 <= k < |ReadDrivers(children)| && ReadDrivers(children)[k].None?
  {
    hide Foreign;
    ForeignFirst(children, ["driver"]);
    var here := if children[0].Element? then [ReadDriver(children[0])] else [];
    if children[0].Element? && children[0].name != "driver" {
      assert ReadDrivers(children)[0].None?;
    } else {
      ForeignDrivers(children[1..]);
      var k :| 0 <= k < |ReadDrivers(children[1..])| && ReadDrivers(children[1..])[k].None?;
      assert ReadDrivers(children)[|here| + k].None?;
    }
  }

  lemma {:induction false} ForeignDriverElement(d: Driver, children: seq<Node>)
    requires Foreign(children, ["description", "interface", "parameters", "models"])
    ensures DriverElements(d, children) == None
    decreases |children|
  {
    hide TextOf, AppendAll, DefaultManufacturer, InterfaceOf, ReadParams, ReadModels, Foreign;
    ForeignFirst(children, ["description", "interface", "parameters", "models"]);
    if Foreign(children[1..], ["description", "interface", "parameters", "models"]) {
      forall d' ensures DriverElements(d', children[1..]) == None { ForeignDriverElement(d', children[1..]); }
    }
  }

  lemma RefusedItem<T>(clash: (T, T) -> bool, have: seq<T>, items: seq<Option<T>>, k: nat)
    requires k < |items| && items[k].None?
    ensures AppendAll(clash, have, items) == None
    decreases |items|
  {
    if k > 0 && items[0].Some? { RefusedItem(clash, have + [items[0].value], items[1..], k - 1); }
  }

  /** Attributes and elements that have no meaning where they stand are refused, at every level. */
  lemma ForeignRefused(root: Node, n: Node)
    requires root.Element? && n.Element?
    ensures ForeignAttr(root.attrs, ["name", "library", "version"]) ==> ReadManifest(root) == None
    ensures Foreign(root.children, ["driver"]) ==> ReadManifest(root) == None
    ensures ForeignAttr(n.attrs, ["name"]) ==> ReadDriver(n) == None
    ensures Foreign(n.children, ["description", "interface", "parameters", "models"]) ==> ReadDriver(n) == None
    ensures ForeignAttr(n.attrs, ["name", "type", "default"]) ==> ReadParam(n) == None
    ensures forall default :: ForeignAttr(n.attrs, ["id", "manufacturer"]) ==> ReadModel(n, default) == None
    ensures forall d, c :: Foreign(c, ["parameter"]) ==> AppendAll(ParamClash, d, ReadParams(c)) == None
    ensures forall d, c, default :: Foreign(c, ["model"]) ==> AppendAll(ModelClash, d, ReadModels(c, default)) == None
  {
    hide Foreign, ForeignAttr, ReadDrivers, ReadParams, ReadModels, AppendAll, DriverElements, RootAttrs, ParamAttrs;
    hide ModelAttrs, DriverName, TextOf;
    if ForeignAttr(root.attrs, ["name", "library", "version"]) { ForeignRootAttr(root.attrs, Manifest("", "", [])); }
    if Foreign(root.children, ["driver"]) {
      ForeignDrivers(root.children);
      var k :| 0 <= k < |ReadDrivers(root.children)| && ReadDrivers(root.children)[k].None?;
      RefusedItem(DriverClash, [], ReadDrivers(root.children), k);
    }
    if ForeignAttr(n.attrs, ["name"]) { ForeignDriverAttr(n.attrs, ""); }
    if Foreign(n.children, ["description", "interface", "parameters", "models"]) && DriverName(n.attrs, "").Some? {
      ForeignDriverElement(Driver(DriverName(n.attrs, "").value, "", UnknownInterface, [], []), n.children);
    }
    if ForeignAttr(n.attrs, ["name", "type", "default"]) {
      ForeignParamAttr(n.attrs, Param("", "", "", UnknownType));
    }
    if ForeignAttr(n.attrs, ["id", "manufacturer"]) { ForeignModelAttr(n.attrs, Model(-1, "", "")); }
    forall d, c | Foreign(c, ["parameter"]) ensures AppendAll(ParamClash, d, ReadParams(c)) == None {
      ForeignParams(c);
      var k :| 0 <= k < |ReadParams(c)| && ReadParams(c)[k].None?;
      RefusedItem(ParamClash, d, ReadParams(c), k);
    }
    forall d, c, default | Foreign(c, ["model"])
      ensures AppendAll(ModelClash, d, ReadModels(c, default)) == None
    {
      ForeignModels(c, default);
      var k :| 0 <= k < |ReadModels(c, default)| && ReadModels(c, default)[k].None?;
      RefusedItem(ModelClash, d, ReadModels(c, default), k);
    }
  }
}

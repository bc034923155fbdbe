/**
  Plugin manifests: reading drivers, parameters and models from an XML tree, and what a manifest that
  was accepted guarantees.
 */
module ManifestSpec {
  import opened Words
  import opened Wrappers
  import opened Names
  import Decimal

  // ---------------------------------------------------------------- the tree

  datatype Attr = Attr(name: string, value: string)

  /** A node of the parsed XML file; text is already converted to the manifest's encoding. */
  datatype Node = Element(name: string, attrs: seq<Attr>, children: seq<Node>) | Text(content: string) | Other

  datatype ParamType = UnknownType | StringType | IntType | UIntType | FloatType | ModelType

  datatype Param = Param(name: string, desc: string, default: string, kind: ParamType)

  datatype Model = Model(number: int, name: string, manufacturer: string)

  datatype Interface = UnknownInterface | Serial | Usb | Bluetooth | IrDA | Network

  datatype Driver = Driver(name: string, desc: string, intf: Interface, params: seq<Param>, models: seq<Model>)

  datatype Manifest = Manifest(name: string, library: string, drivers: seq<Driver>)

  // ---------------------------------------------------------------- one element each

  function TypeOf(s: string): ParamType {
    if s == "string" then StringType
    else if s == "int" then IntType
    else if s == "uint" then UIntType
    else if s == "float" then FloatType
    else if s == "model" then ModelType
    else UnknownType
  }

  function InterfaceOf(s: string): Interface {
    if s == "serial" then Serial
    else if s == "usb" then Usb
    else if s == "bluetooth" then Bluetooth
    else if s == "irda" then IrDA
    else if s == "net" then Network
    else UnknownInterface
  }

  function ParamAttrs(attrs: seq<Attr>, p: Param): Option<Param> {
    if attrs == [] then Some(p)
    else
      var Attr(name, value) := attrs[0];
      if name == "name" then (if p.name != "" then None else ParamAttrs(attrs[1..], p.(name := value)))
      else if name == "type" then
        (if p.kind != UnknownType || TypeOf(value) == UnknownType then None
         else ParamAttrs(attrs[1..], p.(kind := TypeOf(value))))
      else if name == "default" then (if p.default != "" then None else ParamAttrs(attrs[1..], p.(default := value)))
      else None
  }

  /** The text content of an element: None for an element or several nodes inside it. */
  function TextOf(children: seq<Node>): Option<string> {
    if |children| == 1 && children[0].Text? then Some(children[0].content) else None
  }

  /** One child of <parameters>, apart from the check against the parameters already read. */
  function ReadParam(n: Node): Option<Param>
    requires n.Element?
  {
    if n.name != "parameter" then None
    else
      var p := ParamAttrs(n.attrs, Param("", "", "", UnknownType));
      if p.None? || p.value.name == "" || p.value.kind == UnknownType then None
      else if n.children == [] then p
      else if TextOf(n.children).None? then None
      else Some(p.value.(desc := TextOf(n.children).value))
  }

  /** sscanf("%u") into an int. */
  function ReadNumber(s: string): Option<int> {
    if s == "" then None
    else if Decimal.IsSpace(s[0]) then ReadNumber(s[1..])
    else
      var digits := if s[0] == '+' || s[0] == '-' then s[1..] else s;
      if digits == "" || !Decimal.IsDigit(digits[0]) then None
      else Some(ToInt32(U32(Decimal.StrToUl(s))))
  }

  function ModelAttrs(attrs: seq<Attr>, m: Model): Option<Model> {
    if attrs == [] then Some(m)
    else
      var Attr(name, value) := attrs[0];
      if name == "id" then
        (if m.number != -1 || ReadNumber(value).None? then None
         else ModelAttrs(attrs[1..], m.(number := ReadNumber(value).value)))
      else if name == "manufacturer" then
        (if m.manufacturer != "" then None else ModelAttrs(attrs[1..], m.(manufacturer := value)))
      else None
  }

  /** One child of <models> with the default manufacturer of the list. */
  function ReadModel(n: Node, manufacturer: string): Option<Model>
    requires n.Element?
  {
    if n.name != "model" then None
    else
      var m := ModelAttrs(n.attrs, Model(-1, "", ""));
      if m.None? || m.value.number == -1 || TextOf(n.children).None? then None
      else Some(m.value.(name := TextOf(n.children).value,
                         manufacturer := if m.value.manufacturer == "" then manufacturer else m.value.manufacturer))
  }

  function DefaultManufacturer(attrs: seq<Attr>): Option<string> {
    if attrs == [] then Some("")
    else if attrs[0].name != "manufacturer" || |attrs| > 1 then None
    else Some(attrs[0].value)
  }

  // ---------------------------------------------------------------- lists without clashes

  /** Appends the items one after the other; fails at the first that cannot be read or clashes with
      something already in the list. */
  function AppendAll<T>(clash: (T, T) -> bool, have: seq<T>, items: seq<Option<T>>): Option<seq<T>>
    decreases |items|
  {
    if items == [] then Some(have)
    else if items[0].None? || exists k :: 0 <= k < |have| && clash(have[k], items[0].value) then None
    else AppendAll(clash, have + [items[0].value], items[1..])
  }

  predicate NoClash<T>(clash: (T, T) -> bool, s: seq<T>) {
    forall i, j :: 0 <= i < j < |s| ==> !clash(s[i], s[j])
  }

  function Values<T>(items: seq<Option<T>>): seq<T>
    requires forall k :: 0 <= k < |items| ==> items[k].Some?
  {
    seq(|items|, k requires 0 <= k < |items| => items[k].value)
  }

  /** Appending succeeds exactly when every item can be read and the resulting list has no clash, and
      then it yields that list. */
  lemma {:induction false} AppendAllExactly<T>(clash: (T, T) -> bool, have: seq<T>, items: seq<Option<T>>)
    requires NoClash(clash, have)
    ensures AppendAll(clash, have, items).Some? <==>
      (forall k :: 0 <= k < |items| ==> items[k].Some?) && NoClash(clash, have + Values(items))
    ensures AppendAll(clash, have, items).Some? ==> AppendAll(clash, have, items).value == have + Values(items)
    decreases |items|
  {
    if items == [] {
      assert Values(items) == [] && have + [] == have;
    } else if items[0].Some? {
      var x := items[0].value;
      var all := have + [x];
      if forall k :: 0 <= k < |items| ==> items[k].Some? {
        assert Values(items) == [x] + Values(items[1..]);
        assert have + Values(items) == all + Values(items[1..]);
      }
      if k :| 0 <= k < |have| && clash(have[k], x) {
        if forall k :: 0 <= k < |items| ==> items[k].Some? {
          assert (have + Values(items))[k] == have[k] && (have + Values(items))[|have|] == x;
        }
      } else {
        AppendAllExactly(clash, all, items[1..]);
        assert (forall k :: 0 <= k < |items| ==> items[k].Some?) <==>
               (forall k :: 0 <= k < |items[1..]| ==> items[1..][k].Some?) by {
          assert forall k :: 0 <= k < |items| - 1 ==> items[1..][k] == items[k + 1];
        }
      }
    }
  }

  /** driver_has_param, and the rule that only one parameter may have type 'model'. */
  predicate ParamClash(p: Param, q: Param) {
    SameName(p.name, q.name) || (p.kind.ModelType? && q.kind.ModelType?)
  }

  /** driver_has_model */
  predicate ModelClash(p: Model, q: Model) {
    p.number == q.number || SameName(p.name, q.name)
  }

  /** plugin_has_driver */
  predicate DriverClash(p: Driver, q: Driver) {
    SameName(p.name, q.name)
  }

  // ---------------------------------------------------------------- drivers and manifests

  function ReadParams(children: seq<Node>): seq<Option<Param>> {
    if children == [] then []
    else (if children[0].Element? then [ReadParam(children[0])] else []) + ReadParams(children[1..])
  }

  function ReadModels(children: seq<Node>, manufacturer: string): seq<Option<Model>> {
    if children == [] then []
    else (if children[0].Element? then [ReadModel(children[0], manufacturer)] else [])
         + ReadModels(children[1..], manufacturer)
  }

  /** The elements inside <driver>, in any order; lists may be continued by a second element. */
  function DriverElements(d: Driver, children: seq<Node>): Option<Driver>
    decreases |children|
  {
    if children == [] then Some(d)
    else if !children[0].Element? then DriverElements(d, children[1..])
    else
      var Element(name, attrs, inner) := children[0];
      if name == "description" then
        (if d.desc != "" || TextOf(inner).None? then None
         else DriverElements(d.(desc := TextOf(inner).value), children[1..]))
      else if name == "interface" then
        (if d.intf != UnknownInterface || TextOf(inner).None? || InterfaceOf(TextOf(inner).value) == UnknownInterface
         then None
         else DriverElements(d.(intf := InterfaceOf(TextOf(inner).value)), children[1..]))
      else if name == "parameters" then
        (var ps := AppendAll(ParamClash, d.params, ReadParams(inner));
         if ps.None? then None else DriverElements(d.(params := ps.value), children[1..]))
      else if name == "models" then
        (var manufacturer := DefaultManufacturer(attrs);
         if manufacturer.None? then None
         else
           var ms := AppendAll(ModelClash, d.models, ReadModels(inner, manufacturer.value));
           if ms.None? then None else DriverElements(d.(models := ms.value), children[1..]))
      else None
  }

  function DriverName(attrs: seq<Attr>, name: string): Option<string> {
    if attrs == [] then Some(name)
    else if attrs[0].name == "name" then DriverName(attrs[1..], attrs[0].value)
    else None
  }

  /** parse_driver, apart from the check against the drivers already read. */
  function ReadDriver(n: Node): Option<Driver>
    requires n.Element?
  {
    var name := DriverName(n.attrs, "");
    if n.name != "driver" || name.None? then None
    else DriverElements(Driver(name.value, "", UnknownInterface, [], []), n.children)
  }

  function ReadDrivers(children: seq<Node>): seq<Option<Driver>> {
    if children == [] then []
    else (if children[0].Element? then [ReadDriver(children[0])] else []) + ReadDrivers(children[1..])
  }

  /** sscanf of a version string fails only when there is nothing but white space. */
  predicate VersionReadable(s: string) {
    exists k :: 0 <= k < |s| && !Decimal.IsSpace(s[k])
  }

  function RootAttrs(attrs: seq<Attr>, m: Manifest): Option<Manifest> {
    if attrs == [] then Some(m)
    else if attrs[0].name == "name" then RootAttrs(attrs[1..], m.(name := attrs[0].value))
    else if attrs[0].name == "library" then RootAttrs(attrs[1..], m.(library := attrs[0].value))
    else if attrs[0].name == "version" && VersionReadable(attrs[0].value) then RootAttrs(attrs[1..], m)
    else None
  }

  /** The checks on the root element and parse_manifest. */
  function ReadManifest(root: Node): Option<Manifest> {
    if !root.Element? || root.name != "plugin" then None
    else
      var m := RootAttrs(root.attrs, Manifest("", "", []));
      if m.None? || m.value.name == "" || m.value.library == "" then None
      else
        var ds := AppendAll(DriverClash, [], ReadDrivers(root.children));
        if ds.None? then None else Some(m.value.(drivers := ds.value))
  }

  // ---------------------------------------------------------------- what acceptance guarantees

  predicate DriverOk(d: Driver) {
    NoClash(ParamClash, d.params) && NoClash(ModelClash, d.models)
  }

  /** Names present, driver names distinct without regard to case, and inside every driver the same for
      parameters and models, model numbers distinct, at most one parameter of type 'model'. */
  predicate ManifestOk(m: Manifest) {
    && m.name != "" && m.library != ""
    && NoClash(DriverClash, m.drivers)
    && forall k :: 0 <= k < |m.drivers| ==> DriverOk(m.drivers[k])
  }

  lemma {:induction false} DriverElementsOk(d: Driver, children: seq<Node>)
    requires DriverOk(d) && DriverElements(d, children).Some?
    ensures DriverOk(DriverElements(d, children).value)
    decreases |children|
  {
    if children != [] {
      if !children[0].Element? {
        DriverElementsOk(d, children[1..]);
      } else {
        var Element(name, attrs, inner) := children[0];
        if name == "description" {
          DriverElementsOk(d.(desc := TextOf(inner).value), children[1..]);
        } else if name == "interface" {
          DriverElementsOk(d.(intf := InterfaceOf(TextOf(inner).value)), children[1..]);
        } else if name == "parameters" {
          AppendAllExactly(ParamClash, d.params, ReadParams(inner));
          DriverElementsOk(d.(params := AppendAll(ParamClash, d.params, ReadParams(inner)).value), children[1..]);
        } else {
          var items := ReadModels(inner, DefaultManufacturer(attrs).value);
          AppendAllExactly(ModelClash, d.models, items);
          DriverElementsOk(d.(models := AppendAll(ModelClash, d.models, items).value), children[1..]);
        }
      }
    }
  }

  lemma {:induction false} ReadDriversOk(children: seq<Node>)
    ensures forall k :: 0 <= k < |ReadDrivers(children)| && ReadDrivers(children)[k].Some? ==>
      DriverOk(ReadDrivers(children)[k].value)
  {
    if children != [] {
      ReadDriversOk(children[1..]);
      if children[0].Element? && ReadDriver(children[0]).Some? {
        ReadDriverOk(children[0]);
      }
      hide ReadDriver, DriverOk;
    }
  }

  lemma ReadDriverOk(n: Node)
    requires n.Element? && ReadDriver(n).Some?
    ensures DriverOk(ReadDriver(n).value)
  {
    DriverElementsOk(Driver(DriverName(n.attrs, "").value, "", UnknownInterface, [], []), n.children);
  }

  /** An accepted manifest has everything the registry relies on. */
  lemma AcceptedManifestOk(root: Node)
    requires ReadManifest(root).Some?
    ensures ManifestOk(ReadManifest(root).value)
  {
    var items := ReadDrivers(root.children);
    AppendAllExactly(DriverClash, [], items);
    ReadDriversOk(root.children);
    hide ReadDrivers, AppendAll, RootAttrs;
  }
}

/**
  Exactly which XML trees are accepted as manifests, element by element, whatever the order of attributes and
  children, and what is read from them.
 */
module ManifestTheorems {
  import opened Words
  import opened Wrappers
  import opened Names
  import opened ManifestSpec
  import Decimal

  // ---------------------------------------------------------------- attributes

  predicate OnlyAttrs(attrs: seq<Attr>, names: seq<string>) {
    forall k :: 0 <= k < |attrs| ==> attrs[k].name in names
  }

  /** The values of the attributes with the name, in order. */
  function ValuesOf(attrs: seq<Attr>, name: string): seq<string> {
    if attrs == [] then []
    else (if attrs[0].name == name then [attrs[0].value] else []) + ValuesOf(attrs[1..], name)
  }

  lemma OnlyFirst(attrs: seq<Attr>, names: seq<string>)
    requires attrs != []
    ensures OnlyAttrs(attrs, names) <==> attrs[0].name in names && OnlyAttrs(attrs[1..], names)
  {
    if OnlyAttrs(attrs[1..], names) && attrs[0].name in names {
      forall k | 0 <= k < |attrs| ensures attrs[k].name in names {
        if k > 0 { assert attrs[k] == attrs[1..][k - 1]; }
      }
    }
  }

  /** The last of the values, or what was there before. */
  function LastOf<T>(start: T, xs: seq<T>): T {
    if xs == [] then start else xs[|xs| - 1]
  }

  /** A value that is set only while it is unset: the values before the last are unset themselves. */
  predicate SetOnce<T(==)>(unset: T, start: T, xs: seq<T>) {
    (xs != [] ==> start == unset) && forall k :: 0 <= k < |xs| - 1 ==> xs[k] == unset
  }

  lemma SetFirst<T>(unset: T, start: T, x: T, xs: seq<T>)
    ensures SetOnce(unset, start, [x] + xs) <==> start == unset && SetOnce(unset, x, xs)
    ensures LastOf(start, [x] + xs) == LastOf(x, xs)
  {
    var all := [x] + xs;
    assert forall k :: 0 <= k < |xs| ==> all[k + 1] == xs[k];
    if SetOnce(unset, x, xs) && start == unset {
      forall k | 0 <= k < |all| - 1 ensures all[k] == unset {
        if k > 0 { assert all[k] == xs[k - 1]; }
      }
    }
    if SetOnce(unset, start, all) {
      assert xs != [] ==> all[0] == unset;
      forall k | 0 <= k < |xs| - 1 ensures xs[k] == unset { assert all[k + 1] == unset; }
    }
  }

  // ---------------------------------------------------------------- models

  /** sscanf reads the number after white space and a sign, whatever follows it, as an int of 32 bits. */
  lemma {:induction false} NumberExactly(space: string, sign: string, n: nat, tail: string)
    requires (forall k :: 0 <= k < |space| ==> Decimal.IsSpace(space[k])) && (sign == "" || sign == "+" || sign == "-")
    requires n < 0x1_0000_0000 && (tail == "" || !Decimal.IsDigit(tail[0]))
    ensures ReadNumber(space + (sign + Decimal.Show(n) + tail)) ==
      Some(Signed(if sign == "-" then -(n as int) else n as int, 32))
    decreases |space|
  {
    hide Decimal.Show, Decimal.StrToUl, ToInt32, U32, Signed, Pow2;
    var text := sign + Decimal.Show(n) + tail;
    if space == "" {
      Decimal.StrToUlReads(space, sign, n, tail);
      assert space + text == text;
      Decimal.SignThenDigits(sign, Decimal.Show(n), tail);
      LowBits(n, sign == "-");
    } else {
      NumberExactly(space[1..], sign, n, tail);
      assert (space + text)[1..] == space[1..] + text;
    }
  }

  lemma LowBits(n: Word, negative: bool)
    ensures ToInt32(U32(if negative && n > 0 then 0x1_0000_0000_0000_0000 - n else n))
      == Signed(if negative then -(n as int) else n as int, 32)
  {
    hide Pow2;
    Pow2Large();
    if negative && n > 0 {
      QuotientIs(0x1_0000_0000_0000_0000 - n, TWO_32, TWO_32 - 1, TWO_32 - n);
      QuotientIs(-(n as int), TWO_32, -1, TWO_32 - n);
    } else {
      SmallMod(n, TWO_32);
    }
  }

  lemma Pow2Large()
    ensures Pow2(31) == 0x8000_0000 && Pow2(32) == TWO_32
  {
    Pow2Values();
    Pow2Add(16, 16);
    assert 2 * Pow2(31) == Pow2(32);
  }

  /** Without a digit there is no number. */
  lemma {:induction false} NoNumber(space: string, sign: string, tail: string)
    requires (forall k :: 0 <= k < |space| ==> Decimal.IsSpace(space[k])) && (sign == "" || sign == "+" || sign == "-")
    requires tail != "" ==> !Decimal.IsDigit(tail[0])
    requires sign == "" && tail != "" ==> !Decimal.IsSpace(tail[0]) && tail[0] != '+' && tail[0] != '-'
    ensures ReadNumber(space + (sign + tail)) == None
    decreases |space|
  {
    hide Decimal.StrToUl;
    if space == "" {
      assert space + (sign + tail) == sign + tail;
      if sign != "" { assert (sign + tail)[1..] == tail; } else { assert sign + tail == tail; }
    } else {
      NoNumber(space[1..], sign, tail);
      assert (space + (sign + tail))[1..] == space[1..] + (sign + tail);
    }
  }

  /** The number of an id attribute; an unreadable one counts as unset. */
  function NumberOf(id: string): int {
    if ReadNumber(id).Some? then ReadNumber(id).value else -1
  }

  function Numbers(ids: seq<string>): (ns: seq<int>)
    ensures |ns| == |ids|
  {
    seq(|ids|, k requires 0 <= k < |ids| => NumberOf(ids[k]))
  }

  lemma NumbersFirst(id: string, ids: seq<string>)
    ensures Numbers([id] + ids) == [NumberOf(id)] + Numbers(ids)
  {
    hide NumberOf;
    var all := [id] + ids;
    assert forall k :: 0 <= k < |ids| ==> all[k + 1] == ids[k];
    forall k | 0 <= k < |all| ensures Numbers(all)[k] == ([NumberOf(id)] + Numbers(ids))[k] {
      if k > 0 { assert all[k] == ids[k - 1]; }
    }
  }

  predicate AllNumbers(ids: seq<string>) {
    forall k :: 0 <= k < |ids| ==> ReadNumber(ids[k]).Some?
  }

  lemma AllNumbersFirst(id: string, ids: seq<string>)
    ensures AllNumbers([id] + ids) <==> ReadNumber(id).Some? && AllNumbers(ids)
  {
    assert forall k :: 0 <= k < |ids| ==> ([id] + ids)[k + 1] == ids[k];
    assert ([id] + ids)[0] == id;
    if AllNumbers([id] + ids) {
      forall k | 0 <= k < |ids| ensures ReadNumber(ids[k]).Some? { assert ReadNumber(([id] + ids)[k + 1]).Some?; }
    }
  }

  predicate ModelAttrsOk(attrs: seq<Attr>, m: Model) {
    && OnlyAttrs(attrs, ["id", "manufacturer"])
    && AllNumbers(ValuesOf(attrs, "id"))
    && SetOnce(-1, m.number, Numbers(ValuesOf(attrs, "id")))
    && SetOnce("", m.manufacturer, ValuesOf(attrs, "manufacturer"))
  }

  lemma {:induction false} ModelAttrsExactly(attrs: seq<Attr>, m: Model)
    ensures ModelAttrs(attrs, m).Some? <==> ModelAttrsOk(attrs, m)
    ensures ModelAttrs(attrs, m).Some? ==>
      ModelAttrs(attrs, m).value ==
        m.(number := LastOf(m.number, Numbers(ValuesOf(attrs, "id"))),
           manufacturer := LastOf(m.manufacturer, ValuesOf(attrs, "manufacturer")))
    decreases |attrs|
  {
    hide OnlyAttrs, SetOnce, LastOf, ReadNumber, Numbers, AllNumbers;
    if attrs == [] {
      NothingSet(m);
    } else {
      OnlyFirst(attrs, ["id", "manufacturer"]);
      var ids, makers := ValuesOf(attrs[1..], "id"), ValuesOf(attrs[1..], "manufacturer");
      var Attr(name, value) := attrs[0];
      assert [] + ids == ids && [] + makers == makers;
      if name == "id" {
        NumbersFirst(value, ids);
        AllNumbersFirst(value, ids);
        if ReadNumber(value).Some? {
          var n := ReadNumber(value).value;
          SetFirst(-1, m.number, n, Numbers(ids));
          ModelAttrsExactly(attrs[1..], m.(number := n));
        }
      } else if name == "manufacturer" {
        SetFirst("", m.manufacturer, value, makers);
        ModelAttrsExactly(attrs[1..], m.(manufacturer := value));
      }
    }
  }

  lemma NothingSet(m: Model)
    ensures OnlyAttrs([], ["id", "manufacturer"]) && AllNumbers([]) && Numbers([]) == []
    ensures SetOnce(-1, m.number, []) && SetOnce("", m.manufacturer, [])
    ensures LastOf(m.number, []) == m.number && LastOf(m.manufacturer, []) == m.manufacturer
  {
  }

  /** Which elements are accepted as a model, and what is read: any order of attributes, an id that is a number
      and set once, at most one manufacturer that is not empty, and the name as only content. */
  lemma ModelExactly(n: Node, default: string)
    requires n.Element?
    ensures ReadModel(n, default).Some? <==>
      && n.name == "model" && ModelAttrsOk(n.attrs, Model(-1, "", ""))
      && LastOf(-1, Numbers(ValuesOf(n.attrs, "id"))) != -1
      && |n.children| == 1 && n.children[0].Text?
    ensures ReadModel(n, default).Some? ==>
      var own := LastOf("", ValuesOf(n.attrs, "manufacturer"));
      ReadModel(n, default).value == Model(LastOf(-1, Numbers(ValuesOf(n.attrs, "id"))), n.children[0].content,
                                           if own == "" then default else own)
  {
    hide ModelAttrs, ModelAttrsOk, ValuesOf, Numbers, LastOf;
    ModelAttrsExactly(n.attrs, Model(-1, "", ""));
  }

  // ---------------------------------------------------------------- parameters

  function Types(values: seq<string>): (ts: seq<ParamType>)
    ensures |ts| == |values|
  {
    seq(|values|, k requires 0 <= k < |values| => TypeOf(values[k]))
  }

  lemma TypesFirst(value: string, values: seq<string>)
    ensures Types([value] + values) == [TypeOf(value)] + Types(values)
  {
    hide TypeOf;
    var all := [value] + values;
    forall k | 0 <= k < |all| ensures Types(all)[k] == ([TypeOf(value)] + Types(values))[k] {
      if k > 0 { assert all[k] == values[k - 1]; }
    }
  }

  /** One known type at most, as every known type is set. */
  predicate TypesOk(kind: ParamType, ts: seq<ParamType>) {
    |ts| <= 1 && UnknownType !in ts && (ts != [] ==> kind == UnknownType)
  }

  lemma TypesOkFirst(kind: ParamType, t: ParamType, ts: seq<ParamType>)
    ensures TypesOk(kind, [t] + ts) <==> kind == UnknownType && t != UnknownType && TypesOk(t, ts)
    ensures LastOf(kind, [t] + ts) == LastOf(t, ts)
  {
    assert ([t] + ts)[0] == t && t in [t] + ts;
    if ts != [] { assert ts[0] in ts; }
    if ts == [] { assert [t] + ts == [t]; }
  }

  predicate ParamAttrsOk(attrs: seq<Attr>, p: Param) {
    && OnlyAttrs(attrs, ["name", "type", "default"])
    && SetOnce("", p.name, ValuesOf(attrs, "name"))
    && SetOnce("", p.default, ValuesOf(attrs, "default"))
    && TypesOk(p.kind, Types(ValuesOf(attrs, "type")))
  }

  lemma {:induction false} ParamAttrsExactly(attrs: seq<Attr>, p: Param)
    ensures ParamAttrs(attrs, p).Some? <==> ParamAttrsOk(attrs, p)
    ensures ParamAttrs(attrs, p).Some? ==>
      ParamAttrs(attrs, p).value ==
        p.(name := LastOf(p.name, ValuesOf(attrs, "name")), default := LastOf(p.default, ValuesOf(attrs, "default")),
           kind := LastOf(p.kind, Types(ValuesOf(attrs, "type"))))
    decreases |attrs|
  {
    hide OnlyAttrs, SetOnce, LastOf, TypeOf, Types, TypesOk;
    if attrs == [] {
      NoParamSet(p);
    } else {
      OnlyFirst(attrs, ["name", "type", "default"]);
      var names, defaults := ValuesOf(attrs[1..], "name"), ValuesOf(attrs[1..], "default");
      var types := ValuesOf(attrs[1..], "type");
      var Attr(name, value) := attrs[0];
      assert [] + names == names && [] + defaults == defaults && [] + types == types;
      if name == "name" {
        SetFirst("", p.name, value, names);
        ParamAttrsExactly(attrs[1..], p.(name := value));
      } else if name == "type" {
        TypesFirst(value, types);
        TypesOkFirst(p.kind, TypeOf(value), Types(types));
        ParamAttrsExactly(attrs[1..], p.(kind := TypeOf(value)));
      } else if name == "default" {
        SetFirst("", p.default, value, defaults);
        ParamAttrsExactly(attrs[1..], p.(default := value));
      }
    }
  }

  lemma NoParamSet(p: Param)
    ensures OnlyAttrs([], ["name", "type", "default"]) && Types([]) == [] && TypesOk(p.kind, [])
    ensures SetOnce("", p.name, []) && SetOnce("", p.default, [])
    ensures LastOf(p.name, []) == p.name && LastOf(p.default, []) == p.default && LastOf(p.kind, []) == p.kind
  {
  }

  /** Which elements are accepted as a parameter, and what is read. */
  lemma ParamExactly(n: Node)
    requires n.Element?
    ensures ReadParam(n).Some? <==>
      && n.name == "parameter" && ParamAttrsOk(n.attrs, Param("", "", "", UnknownType))
      && LastOf("", ValuesOf(n.attrs, "name")) != ""
      && ValuesOf(n.attrs, "type") != []
      && (n.children == [] || (|n.children| == 1 && n.children[0].Text?))
    ensures ReadParam(n).Some? ==>
      ReadParam(n).value == Param(LastOf("", ValuesOf(n.attrs, "name")),
                                  if n.children == [] then "" else n.children[0].content,
                                  LastOf("", ValuesOf(n.attrs, "default")), TypeOf(ValuesOf(n.attrs, "type")[0]))
  {
    hide ParamAttrs, ValuesOf, TypeOf, SetOnce, OnlyAttrs;
    ParamAttrsExactly(n.attrs, Param("", "", "", UnknownType));
    var types := ValuesOf(n.attrs, "type");
    if types != [] { assert Types(types)[0] == TypeOf(types[0]) && Types(types)[0] in Types(types); }
  }

  // ---------------------------------------------------------------- drivers

  /** The texts of the description elements among the children. */
  function Descriptions(children: seq<Node>): seq<Option<string>> {
    if children == [] then []
    else (if children[0].Element? && children[0].name == "description" then [TextOf(children[0].children)] else [])
         + Descriptions(children[1..])
  }

  /** The interfaces of the interface elements; None for one that is not known. */
  function Interfaces(children: seq<Node>): seq<Option<Interface>> {
    if children == [] then []
    else (if children[0].Element? && children[0].name == "interface" then [KnownInterface(TextOf(children[0].children))]
          else [])
         + Interfaces(children[1..])
  }

  function KnownInterface(text: Option<string>): Option<Interface> {
    if text.None? || InterfaceOf(text.value) == UnknownInterface then None else Some(InterfaceOf(text.value))
  }

  /** The parameters of all lists of parameters, one after the other. */
  function AllParams(children: seq<Node>): seq<Option<Param>> {
    if children == [] then []
    else (if children[0].Element? && children[0].name == "parameters" then ReadParams(children[0].children) else [])
         + AllParams(children[1..])
  }

  /** The models of all lists of models, each list with its own default manufacturer. */
  function AllModels(children: seq<Node>): seq<Option<Model>> {
    if children == [] then []
    else (if children[0].Element? && children[0].name == "models" then ListedModels(children[0]) else [])
         + AllModels(children[1..])
  }

  function ListedModels(n: Node): seq<Option<Model>>
    requires n.Element?
  {
    if DefaultManufacturer(n.attrs).None? then [None] else ReadModels(n.children, DefaultManufacturer(n.attrs).value)
  }

  predicate OnlyElements(children: seq<Node>, names: seq<string>) {
    forall k :: 0 <= k < |children| ==> children[k].Element? ==> children[k].name in names
  }

  lemma OnlyElementsFirst(children: seq<Node>, names: seq<string>)
    requires children != []
    ensures OnlyElements(children, names) <==>
      (children[0].Element? ==> children[0].name in names) && OnlyElements(children[1..], names)
  {
    assert forall k :: 0 <= k < |children| - 1 ==> children[1..][k] == children[k + 1];
    if OnlyElements(children[1..], names) && (children[0].Element? ==> children[0].name in names) {
      forall k | 0 <= k < |children| && children[k].Element? ensures children[k].name in names {
        if k > 0 { assert children[k] == children[1..][k - 1]; }
      }
    }
    if OnlyElements(children, names) {
      forall k | 0 <= k < |children| - 1 && children[1..][k].Element? ensures children[1..][k].name in names {
        assert children[k + 1] == children[1..][k];
      }
    }
  }

  /** A text that is set while it is empty. */
  function SetText(text: string, ts: seq<Option<string>>): Option<string>
    decreases |ts|
  {
    if ts == [] then Some(text)
    else if text != "" || ts[0].None? then None
    else SetText(ts[0].value, ts[1..])
  }

  function SetInterface(intf: Interface, xs: seq<Option<Interface>>): Option<Interface>
    decreases |xs|
  {
    if xs == [] then Some(intf)
    else if intf != UnknownInterface || xs[0].None? then None
    else SetInterface(xs[0].value, xs[1..])
  }

  /** The driver with its four parts, if all of them are there. */
  function Combine(name: string, desc: Option<string>, intf: Option<Interface>, params: Option<seq<Param>>,
                   models: Option<seq<Model>>): Option<Driver> {
    if desc.None? || intf.None? || params.None? || models.None? then None
    else Some(Driver(name, desc.value, intf.value, params.value, models.value))
  }

  lemma {:induction false} AppendSplits<T>(clash: (T, T) -> bool, have: seq<T>, a: seq<Option<T>>, b: seq<Option<T>>)
    ensures AppendAll(clash, have, a + b) ==
      var first := AppendAll(clash, have, a);
      if first.None? then None else AppendAll(clash, first.value, b)
    decreases |a|
  {
    if a == [] {
      assert a + b == b;
    } else {
      assert (a + b)[1..] == a[1..] + b && (a + b)[0] == a[0];
      if a[0].Some? { AppendSplits(clash, have + [a[0].value], a[1..], b); }
    }
  }

  const PARTS: seq<string> := ["description", "interface", "parameters", "models"]

  /** The four parts of a driver are read independently of each other and of their order. */
  lemma {:induction false} PartsIndependent(d: Driver, children: seq<Node>)
    ensures DriverElements(d, children) ==
      if !OnlyElements(children, PARTS) then None
      else Combine(d.name, SetText(d.desc, Descriptions(children)), SetInterface(d.intf, Interfaces(children)),
                   AppendAll(ParamClash, d.params, AllParams(children)),
                   AppendAll(ModelClash, d.models, AllModels(children)))
    decreases |children|
  {
    hide OnlyElements, TextOf, InterfaceOf, AppendAll, DefaultManufacturer, ReadParams, ReadModels, SetText;
    hide SetInterface;
    if children == [] {
      NoParts(d);
    } else {
      OnlyElementsFirst(children, PARTS);
      var rest := children[1..];
      PartFirst(children);
      if !children[0].Element? {
        PartsIndependent(d, rest);
      } else {
        var Element(name, attrs, inner) := children[0];
        if name == "description" {
          TextFirst(d.desc, TextOf(inner), Descriptions(rest));
          if TextOf(inner).Some? { PartsIndependent(d.(desc := TextOf(inner).value), rest); }
        } else if name == "interface" {
          InterfaceFirst(d.intf, KnownInterface(TextOf(inner)), Interfaces(rest));
          if KnownInterface(TextOf(inner)).Some? { PartsIndependent(d.(intf := InterfaceOf(TextOf(inner).value)), rest); }
        } else if name == "parameters" {
          AppendSplits(ParamClash, d.params, ReadParams(inner), AllParams(rest));
          var ps := AppendAll(ParamClash, d.params, ReadParams(inner));
          if ps.Some? { PartsIndependent(d.(params := ps.value), rest); }
        } else if name == "models" {
          AppendSplits(ModelClash, d.models, ListedModels(children[0]), AllModels(rest));
          var ms := AppendAll(ModelClash, d.models, ListedModels(children[0]));
          AppendNone(d.models);
          if ms.Some? { PartsIndependent(d.(models := ms.value), rest); }
        }
      }
    }
  }

  lemma AppendNone(have: seq<Model>)
    ensures AppendAll(ModelClash, have, [None]) == None
  {
  }

  lemma TextFirst(text: string, t: Option<string>, ts: seq<Option<string>>)
    ensures SetText(text, [t] + ts) == if text != "" || t.None? then None else SetText(t.value, ts)
  {
    assert ([t] + ts)[1..] == ts;
  }

  lemma InterfaceFirst(intf: Interface, x: Option<Interface>, xs: seq<Option<Interface>>)
    ensures SetInterface(intf, [x] + xs) ==
      if intf != UnknownInterface || x.None? then None else SetInterface(x.value, xs)
  {
    assert ([x] + xs)[1..] == xs;
  }

  lemma NoParts(d: Driver)
    ensures OnlyElements([], PARTS) && SetText(d.desc, []) == Some(d.desc) && SetInterface(d.intf, []) == Some(d.intf)
    ensures AppendAll(ParamClash, d.params, []) == Some(d.params) && AppendAll(ModelClash, d.models, []) == Some(d.models)
  {
  }

  /** The lists of parts of which the first child has one, or none. */
  lemma PartFirst(children: seq<Node>)
    requires children != []
    ensures var rest, c := children[1..], children[0];
      && (!(c.Element? && c.name == "description") ==> Descriptions(children) == Descriptions(rest))
      && (!(c.Element? && c.name == "interface") ==> Interfaces(children) == Interfaces(rest))
      && (!(c.Element? && c.name == "parameters") ==> AllParams(children) == AllParams(rest))
      && (!(c.Element? && c.name == "models") ==> AllModels(children) == AllModels(rest))
  {
    hide TextOf, KnownInterface, ReadParams, ListedModels;
    var rest := children[1..];
    assert [] + Descriptions(rest) == Descriptions(rest) && [] + Interfaces(rest) == Interfaces(rest);
    assert [] + AllParams(rest) == AllParams(rest) && [] + AllModels(rest) == AllModels(rest);
  }

  lemma {:induction false} SetTextExactly(text: string, ts: seq<Option<string>>)
    ensures SetText(text, ts).Some? <==>
      && (ts != [] ==> text == "")
      && (forall k :: 0 <= k < |ts| ==> ts[k].Some?) && (forall k :: 0 <= k < |ts| - 1 ==> ts[k] == Some(""))
    ensures SetText(text, ts).Some? ==> SetText(text, ts) == LastOf(Some(text), ts)
    decreases |ts|
  {
    if ts != [] {
      assert forall k :: 0 <= k < |ts| - 1 ==> ts[1..][k] == ts[k + 1];
      if ts[0].Some? {
        SetTextExactly(ts[0].value, ts[1..]);
        if SetText(ts[0].value, ts[1..]).Some? {
          forall k | 0 <= k < |ts| ensures ts[k].Some? { if k > 0 { assert ts[k] == ts[1..][k - 1]; } }
          forall k | 0 <= k < |ts| - 1 ensures ts[k] == Some("") { if k > 0 { assert ts[k] == ts[1..][k - 1]; } }
        }
      }
    }
  }

  lemma SetInterfaceExactly(xs: seq<Option<Interface>>)
    requires forall k :: 0 <= k < |xs| && xs[k].Some? ==> xs[k].value != UnknownInterface
    ensures SetInterface(UnknownInterface, xs).Some? <==> xs == [] || (|xs| == 1 && xs[0].Some?)
    ensures SetInterface(UnknownInterface, xs).Some? ==>
      SetInterface(UnknownInterface, xs) == LastOf(Some(UnknownInterface), xs)
  {
    if |xs| == 1 {
      assert xs[1..] == [];
    } else if |xs| > 1 && xs[0].Some? {
      assert xs[0].value != UnknownInterface;
    }
  }

  lemma {:induction false} InterfacesKnown(children: seq<Node>)
    ensures forall k :: 0 <= k < |Interfaces(children)| && Interfaces(children)[k].Some? ==>
      Interfaces(children)[k].value != UnknownInterface
  {
    hide InterfaceOf, TextOf;
    if children != [] { InterfacesKnown(children[1..]); }
  }

  predicate Readable<T>(items: seq<Option<T>>) {
    forall k :: 0 <= k < |items| ==> items[k].Some?
  }

  lemma AppendFresh<T>(clash: (T, T) -> bool, items: seq<Option<T>>)
    ensures AppendAll(clash, [], items).Some? <==> Readable(items) && NoClash(clash, Values(items))
    ensures AppendAll(clash, [], items).Some? ==> AppendAll(clash, [], items).value == Values(items)
  {
    AppendAllExactly(clash, [], items);
    if Readable(items) { assert [] + Values(items) == Values(items); }
  }

  lemma {:induction false} DriverNameExactly(attrs: seq<Attr>, name: string)
    ensures DriverName(attrs, name).Some? <==> OnlyAttrs(attrs, ["name"])
    ensures DriverName(attrs, name).Some? ==> DriverName(attrs, name).value == LastOf(name, ValuesOf(attrs, "name"))
    decreases |attrs|
  {
    hide OnlyAttrs, LastOf, SetOnce;
    NothingAfter(name);
    if attrs != [] {
      OnlyFirst(attrs, ["name"]);
      SetFirst("", name, attrs[0].value, ValuesOf(attrs[1..], "name"));
      DriverNameExactly(attrs[1..], attrs[0].value);
    }
  }

  lemma NothingAfter(name: string)
    ensures OnlyAttrs([], ["name"]) && LastOf(name, []) == name
  {
  }

  /** Which elements are accepted as a driver, and what is read: children of the four kinds in any order, one known
      interface at most, no description after one that is not empty, and over all lists together readable
      parameters and models without a clash. */
  lemma DriverExactly(n: Node)
    requires n.Element?
    ensures ReadDriver(n).Some? <==>
      && n.name == "driver" && OnlyAttrs(n.attrs, ["name"])
      && OnlyElements(n.children, ["description", "interface", "parameters", "models"])
      && Readable(Descriptions(n.children))
      && (forall k :: 0 <= k < |Descriptions(n.children)| - 1 ==> Descriptions(n.children)[k] == Some(""))
      && Readable(Interfaces(n.children)) && |Interfaces(n.children)| <= 1
      && Readable(AllParams(n.children)) && NoClash(ParamClash, Values(AllParams(n.children)))
      && Readable(AllModels(n.children)) && NoClash(ModelClash, Values(AllModels(n.children)))
    ensures ReadDriver(n).Some? ==>
      ReadDriver(n) == Combine(LastOf("", ValuesOf(n.attrs, "name")), LastOf(Some(""), Descriptions(n.children)),
                               LastOf(Some(UnknownInterface), Interfaces(n.children)),
                               Some(Values(AllParams(n.children))), Some(Values(AllModels(n.children))))
  {
    hide OnlyAttrs, OnlyElements, LastOf, Descriptions, Interfaces, AllParams, AllModels, AppendAll, NoClash;
    hide SetText, SetInterface, DriverElements, ValuesOf, DriverName;
    var c := n.children;
    DriverNameExactly(n.attrs, "");
    if DriverName(n.attrs, "").Some? {
      PartsIndependent(Driver(DriverName(n.attrs, "").value, "", UnknownInterface, [], []), c);
      SetTextExactly("", Descriptions(c));
      InterfacesKnown(c);
      SetInterfaceExactly(Interfaces(c));
      AppendFresh(ParamClash, AllParams(c));
      AppendFresh(ModelClash, AllModels(c));
    }
  }

  // ---------------------------------------------------------------- manifests

  /** Not only white space. */
  predicate HasText(s: string) {
    exists i :: 0 <= i < |s| && !Decimal.IsSpace(s[i])
  }

  predicate Versions(values: seq<string>) {
    forall k :: 0 <= k < |values| ==> HasText(values[k])
  }

  lemma HasTextIs(s: string)
    ensures HasText(s) <==> VersionReadable(s)
  {
  }

  lemma VersionsFirst(value: string, values: seq<string>)
    ensures Versions([value] + values) <==> VersionReadable(value) && Versions(values)
  {
    hide HasText, VersionReadable;
    HasTextIs(value);
    var all := [value] + values;
    assert all[0] == value && forall k :: 0 <= k < |values| ==> all[k + 1] == values[k];
    if Versions(all) {
      forall k | 0 <= k < |values| ensures HasText(values[k]) {
        assert HasText(all[k + 1]);
      }
    }
  }

  lemma {:induction false} RootAttrsExactly(attrs: seq<Attr>, m: Manifest)
    ensures RootAttrs(attrs, m).Some? <==>
      OnlyAttrs(attrs, ["name", "library", "version"]) && Versions(ValuesOf(attrs, "version"))
    ensures RootAttrs(attrs, m).Some? ==>
      RootAttrs(attrs, m).value == m.(name := LastOf(m.name, ValuesOf(attrs, "name")),
                                      library := LastOf(m.library, ValuesOf(attrs, "library")))
    decreases |attrs|
  {
    hide OnlyAttrs, LastOf, SetOnce, Versions, VersionReadable;
    if attrs == [] {
      NoRootSet(m);
    } else {
      OnlyFirst(attrs, ["name", "library", "version"]);
      var names, libraries := ValuesOf(attrs[1..], "name"), ValuesOf(attrs[1..], "library");
      var versions := ValuesOf(attrs[1..], "version");
      var Attr(name, value) := attrs[0];
      assert [] + names == names && [] + libraries == libraries && [] + versions == versions;
      SetFirst("", m.name, value, names);
      SetFirst("", m.library, value, libraries);
      VersionsFirst(value, versions);
      RootAttrsExactly(attrs[1..], if name == "name" then m.(name := value)
                                   else if name == "library" then m.(library := value) else m);
    }
  }

  lemma NoRootSet(m: Manifest)
    ensures OnlyAttrs([], ["name", "library", "version"]) && Versions([])
    ensures LastOf(m.name, []) == m.name && LastOf(m.library, []) == m.library
  {
  }

  /** Which trees are accepted as a manifest, and what is read. */
  lemma ManifestExactly(root: Node)
    requires root.Element?
    ensures ReadManifest(root).Some? <==>
      && root.name == "plugin" && OnlyAttrs(root.attrs, ["name", "library", "version"])
      && Versions(ValuesOf(root.attrs, "version"))
      && LastOf("", ValuesOf(root.attrs, "name")) != "" && LastOf("", ValuesOf(root.attrs, "library")) != ""
      && Readable(ReadDrivers(root.children)) && NoClash(DriverClash, Values(ReadDrivers(root.children)))
    ensures ReadManifest(root).Some? ==>
      ReadManifest(root).value == Manifest(LastOf("", ValuesOf(root.attrs, "name")),
                                           LastOf("", ValuesOf(root.attrs, "library")),
                                           Values(ReadDrivers(root.children)))
  {
    hide OnlyAttrs, LastOf, Versions, ReadDrivers, AppendAll, RootAttrs, ValuesOf, NoClash;
    RootAttrsExactly(root.attrs, Manifest("", "", []));
    AppendFresh(DriverClash, ReadDrivers(root.children));
  }
}

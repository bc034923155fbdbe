/**
  The seven dive computer models and their data type indicator (DTI) tables.
 */
module DtiTables {
  import opened Words
  import opened Wrappers

  datatype Model = SmartPro | GalileoSol | AladinTec | AladinTec2G | SmartCom | SmartTec | SmartZ

  datatype Kind =
    | PressureDepth | Depth | Temperature | Pressure | Rbt | HeartRate | Bearing | Alarms | Time

  /** One table entry: ntb type bits, and `extra` bytes after the byte that ends the type bits.
      When `ignore` is set the bits left over in that byte carry no payload. */
  datatype Entry = Entry(kind: Kind, abs: bool, idx: nat, ntb: nat, ignore: bool, extra: nat)

  /** The switch over the model number in smart_parser_create. */
  function ModelOf(number: int): Option<Model> {
    match number
    case 16 => Some(SmartPro)
    case 17 => Some(GalileoSol)
    case 18 => Some(AladinTec)
    case 19 => Some(AladinTec2G)
    case 20 => Some(SmartCom)
    case 24 => Some(SmartTec)
    case 28 => Some(SmartZ)
    case _ => None
  }

  function HeaderSize(model: Model): nat {
    match model
    case SmartPro => 92
    case GalileoSol => 152
    case AladinTec => 108
    case AladinTec2G => 116
    case SmartCom => 100
    case SmartTec => 132
    case SmartZ => 132
  }

  const SMART_PRO: seq<Entry> := [
    Entry(Depth, false, 0, 1, false, 0),
    Entry(Temperature, false, 0, 2, false, 0),
    Entry(Time, true, 0, 3, false, 0),
    Entry(Alarms, true, 0, 4, false, 0),
    Entry(Depth, false, 0, 5, false, 1),
    Entry(Temperature, false, 0, 6, false, 1),
    Entry(Depth, true, 0, 7, true, 2),
    Entry(Temperature, true, 0, 8, false, 2)]

  const GALILEO_SOL: seq<Entry> := [
    Entry(Depth, false, 0, 1, false, 0),
    Entry(Rbt, false, 0, 3, false, 0),
    Entry(Pressure, false, 0, 4, false, 0),
    Entry(Temperature, false, 0, 4, false, 0),
    Entry(Time, true, 0, 4, false, 0),
    Entry(HeartRate, false, 0, 4, false, 0),
    Entry(Alarms, true, 0, 4, false, 0),
    Entry(Alarms, true, 1, 8, false, 1),
    Entry(Depth, true, 0, 8, false, 2),
    Entry(Rbt, true, 0, 8, false, 1),
    Entry(Temperature, true, 0, 8, false, 2),
    Entry(Pressure, true, 0, 8, false, 2),
    Entry(Pressure, true, 1, 8, false, 2),
    Entry(Pressure, true, 2, 8, false, 2),
    Entry(HeartRate, true, 0, 8, false, 1),
    Entry(Bearing, true, 0, 8, false, 2),
    Entry(Alarms, true, 2, 8, false, 1)]

  // smart_aladin_table and smart_aladin_tec2g_table have the same rows.
  const ALADIN: seq<Entry> := SMART_PRO + [Entry(Alarms, true, 1, 9, false, 0)]

  const SMART_COM_COMMON: seq<Entry> := [
    Entry(PressureDepth, false, 0, 1, false, 1),
    Entry(Rbt, false, 0, 2, false, 0),
    Entry(Temperature, false, 0, 3, false, 0),
    Entry(Pressure, false, 0, 4, false, 1),
    Entry(Depth, false, 0, 5, false, 1),
    Entry(Temperature, false, 0, 6, false, 1),
    Entry(Alarms, true, 0, 7, true, 1),
    Entry(Time, true, 0, 8, false, 1),
    Entry(Depth, true, 0, 9, true, 2),
    Entry(Temperature, true, 0, 10, true, 2),
    Entry(Pressure, true, 0, 11, true, 2)]

  const SMART_COM: seq<Entry> := SMART_COM_COMMON + [Entry(Rbt, true, 0, 12, true, 1)]

  const SMART_TEC: seq<Entry> := SMART_COM_COMMON + [
    Entry(Pressure, true, 1, 12, true, 2),
    Entry(Pressure, true, 2, 13, true, 2),
    Entry(Rbt, true, 0, 14, true, 1)]

  function Table(model: Model): seq<Entry> {
    match model
    case SmartPro => SMART_PRO
    case GalileoSol => GALILEO_SOL
    case AladinTec => ALADIN
    case AladinTec2G => ALADIN
    case SmartCom => SMART_COM
    case SmartTec => SMART_TEC
    case SmartZ => SMART_TEC
  }

  /** Bits of payload in the byte that ends the type bits, whether used or ignored. */
  function LeftoverBits(e: Entry): nat {
    if e.ntb % 8 == 0 then 0 else 8 - e.ntb % 8
  }

  /** Number of payload bits of an entry. */
  function PayloadBits(e: Entry): nat {
    (if e.ignore then 0 else LeftoverBits(e)) + 8 * e.extra
  }

  /** The type bits of a Galileo record, as a number of `ntb` bits. */
  function GalileoTag(id: nat): nat {
    if id == 0 then 0 else if id == 1 then 4 else if id < 7 then 8 + id else 240 + (id - 7)
  }

  function GalileoTagBits(id: nat): nat {
    if id == 0 then 1 else if id == 1 then 3 else if id < 7 then 4 else 8
  }

  /** What the decoder relies on in row `id`: the row encodes its own type bits (the unary tables
      have ntb == index + 1), the payload has 1 to 16 bits, alarm indices stay inside alarms[3],
      and TIME payloads fit the 8-bit `complete` counter. */
  predicate RowOk(galileo: bool, id: nat, e: Entry) {
    && (if galileo then id < 17 && e.ntb == GalileoTagBits(id) && !e.ignore else e.ntb == id + 1 <= 14)
    && e.extra <= 2 && (e.ignore ==> e.ntb % 8 > 0)
    && 1 <= PayloadBits(e) <= 16
    && (e.kind.Alarms? || e.kind.Pressure? ==> e.idx < 3)
    && (e.kind.Time? ==> PayloadBits(e) <= 8)
    && (e.kind.PressureDepth? ==> PayloadBits(e) == 15)
  }

  predicate RowsOk(galileo: bool, from: nat, rows: seq<Entry>) {
    forall k :: 0 <= k < |rows| ==> RowOk(galileo, from + k, rows[k])
  }

  lemma RowsOkConcat(galileo: bool, a: seq<Entry>, b: seq<Entry>)
    requires RowsOk(galileo, 0, a) && RowsOk(galileo, |a|, b)
    ensures RowsOk(galileo, 0, a + b)
  {
    forall k | 0 <= k < |a + b| ensures RowOk(galileo, k, (a + b)[k]) {
      if k >= |a| {
        assert (a + b)[k] == b[k - |a|];
        assert RowOk(galileo, |a| + (k - |a|), b[k - |a|]);
      }
    }
  }

  /** What the record decoder knows of a model: which kind of tag it uses, and its table. */
  datatype Layout = Layout(galileo: bool, rows: seq<Entry>)

  predicate Valid(m: Layout) {
    RowsOk(m.galileo, 0, m.rows)
  }

  lemma RowOf(m: Layout, id: nat)
    requires Valid(m) && id < |m.rows|
    ensures RowOk(m.galileo, id, m.rows[id])
  {
    assert RowOk(m.galileo, 0 + id, m.rows[id]);
  }

  function LayoutOf(model: Model): Layout {
    Layout(model.GalileoSol?, Table(model))
  }

  lemma GalileoRows()
    ensures RowsOk(true, 0, GALILEO_SOL)
  {
  }

  lemma AladinRows()
    ensures RowsOk(false, 0, SMART_PRO)
    ensures RowsOk(false, 0, ALADIN)
  {
    RowsOkConcat(false, SMART_PRO, [Entry(Alarms, true, 1, 9, false, 0)]);
  }

  lemma SmartComRows()
    ensures RowsOk(false, 0, SMART_COM_COMMON) && |SMART_COM_COMMON| == 11
    ensures RowsOk(false, 0, SMART_COM)
  {
    RowsOkConcat(false, SMART_COM_COMMON, [Entry(Rbt, true, 0, 12, true, 1)]);
  }

  lemma SmartTecRows()
    ensures RowsOk(false, 0, SMART_TEC)
  {
    var more := [
      Entry(Pressure, true, 1, 12, true, 2),
      Entry(Pressure, true, 2, 13, true, 2),
      Entry(Rbt, true, 0, 14, true, 1)];
    assert RowsOk(false, 11, more);
    SmartComRows();
    RowsOkConcat(false, SMART_COM_COMMON, more);
  }

  lemma LayoutsValid(model: Model)
    ensures Valid(LayoutOf(model))
  {
    hide RowsOk;
    match model
    case SmartPro => AladinRows();
    case GalileoSol => GalileoRows();
    case AladinTec => AladinRows();
    case AladinTec2G => AladinRows();
    case SmartCom => SmartComRows();
    case SmartTec => SmartTecRows();
    case SmartZ => SmartTecRows();
  }
}

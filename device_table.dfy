/**
 * The device identity table: one DeviceIrkInfo per bonded peer, its four
 * text fields computed from its bytes when the record is made, and the value
 * each text sensor shows for a table.
 */
module DeviceTable {
  import opened Bytes
  import opened Formatters
  import opened Events
  import opened Bluedroid
  import opened Seqs

  /** DeviceIrkInfo: the raw address and key and their four encodings. */
  datatype DeviceIrkInfo = DeviceIrkInfo(
    bdAddr: Address,
    irk: Irk,
    addressStr: string,
    irkHex: string,
    irkBase64: string,
    irkReverse: string)

  /** The four text fields are the formatter outputs of the record's own bytes. */
  predicate Consistent(d: DeviceIrkInfo)
  {
    && d.addressStr == FormatAddress(d.bdAddr)
    && d.irkHex == FormatIrkHex(d.irk)
    && d.irkBase64 == FormatIrkBase64(d.irk)
    && d.irkReverse == FormatIrkReverse(d.irk)
  }

  /** One pass of the extraction loop body: copy the bytes, format them. */
  function MakeDeviceInfo(r: BondRecord): (d: DeviceIrkInfo)
    ensures Consistent(d)
    ensures d.bdAddr == r.bdAddr && d.irk == r.irk
  {
    DeviceIrkInfo(r.bdAddr, r.irk, FormatAddress(r.bdAddr), FormatIrkHex(r.irk),
                  FormatIrkBase64(r.irk), FormatIrkReverse(r.irk))
  }

  /** The table the extraction loop has pushed after the records of `records`. */
  function BuildTable(records: seq<BondRecord>): seq<DeviceIrkInfo>
  {
    PushAll(MakeDeviceInfo, records)
  }

  /** The table holds one record per listed bond, in list order, each with the
      bond's own address and key and the four encodings of them. */
  lemma BuildTableAt(records: seq<BondRecord>)
    ensures |BuildTable(records)| == |records|
    ensures forall i :: 0 <= i < |records| ==> BuildTable(records)[i] == MakeDeviceInfo(records[i])
    ensures forall d :: d in BuildTable(records) ==> Consistent(d)
  {
    PushAllAt(MakeDeviceInfo, records);
  }

  /** The field of a record that a sensor of format `f` shows (the switch on get_format()). */
  function Field(d: DeviceIrkInfo, f: IrkFormat): string
  {
    match f
    case HexFormat => d.irkHex
    case Base64Format => d.irkBase64
    case ReverseFormat => d.irkReverse
    case AddressFormat => d.addressStr
  }

  /** What a sensor of format `f` shows for a table: the first device's field, or "" for no devices. */
  function SensorValue(table: seq<DeviceIrkInfo>, f: IrkFormat): string
  {
    if |table| == 0 then "" else Field(table[0], f)
  }

  /** The encoding a format selects, computed straight from the bytes. */
  function Encoding(f: IrkFormat, addr: Address, irk: Irk): string
  {
    match f
    case HexFormat => FormatIrkHex(irk)
    case Base64Format => FormatIrkBase64(irk)
    case ReverseFormat => FormatIrkReverse(irk)
    case AddressFormat => FormatAddress(addr)
  }

  /** The width of each encoding. */
  function Width(f: IrkFormat): nat
  {
    match f
    case HexFormat => 79
    case Base64Format => 24
    case ReverseFormat => 32
    case AddressFormat => 17
  }

  /** After an extraction of `records`, a sensor shows "" when there are none,
      and otherwise its format's encoding of the FIRST listed bond, at that
      encoding's full width. */
  lemma SensorValueOfExtraction(records: seq<BondRecord>, f: IrkFormat)
    ensures |records| == 0 ==> SensorValue(BuildTable(records), f) == ""
    ensures |records| > 0 ==>
      && SensorValue(BuildTable(records), f) == Encoding(f, records[0].bdAddr, records[0].irk)
      && |SensorValue(BuildTable(records), f)| == Width(f)
  {
    BuildTableAt(records);
    if |records| > 0 {
      var r := records[0];
      FormatAddressShape(r.bdAddr);
      FormatIrkHexShape(r.irk);
      FormatIrkBase64Shape(r.irk);
      FormatIrkReverseShape(r.irk);
    }
  }
}

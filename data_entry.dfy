/** The record both backends export and import (DataEntry), the type tags it carries, and the typed values of the API. */
module Data {
  import opened Wrappers
  import opened Bytes
  import Utf8
  import DecimalText

  /** The .NET Type a record is tagged with (typeof(MetaDataObject), typeof(Int16), ...). */
  datatype VarType =
    | MetaData | Int16 | Int32 | Int64 | UInt16 | UInt32 | UInt64
    | Single | Double | String | ByteArray | Boolean

  /** A DataEntry: six fields fixed by the constructor; the class has no setters. */
  datatype DataEntry = DataEntry(
    variableType: VarType,
    name: string,
    group: string,
    value: seq<byte>,
    default: seq<byte>,
    description: string)

  function GetVariableType(e: DataEntry): VarType { e.variableType }
  function GetVariableName(e: DataEntry): string { e.name }
  function GetVariableGroup(e: DataEntry): string { e.group }
  function GetVariableValue(e: DataEntry): seq<byte> { e.value }
  function GetVariableDefault(e: DataEntry): seq<byte> { e.default }
  function GetVariableDescription(e: DataEntry): string { e.description }

  /** Each getter returns the argument the constructor was given in that position. */
  lemma GettersReturnConstructorArguments(t: VarType, name: string, group: string,
                                          value: seq<byte>, default: seq<byte>, desc: string)
    ensures var e := DataEntry(t, name, group, value, default, desc);
      GetVariableType(e) == t && GetVariableName(e) == name && GetVariableGroup(e) == group &&
      GetVariableValue(e) == value && GetVariableDefault(e) == default &&
      GetVariableDescription(e) == desc
  {
  }

  /** Two records with the same six arguments are the same record, and the getters determine it. */
  lemma GettersDetermineEntry(e: DataEntry, f: DataEntry)
    requires GetVariableType(e) == GetVariableType(f) && GetVariableName(e) == GetVariableName(f)
    requires GetVariableGroup(e) == GetVariableGroup(f) && GetVariableValue(e) == GetVariableValue(f)
    requires GetVariableDefault(e) == GetVariableDefault(f)
    requires GetVariableDescription(e) == GetVariableDescription(f)
    ensures e == f
  {
  }

  /** A typed value as the Add/Set/Get methods take and return it. */
  datatype Value =
    | IntValue(i: int)              // Int16, Int32, Int64
    | UIntValue(n: nat)             // UInt16, UInt32, UInt64
    | FloatValue(bits: seq<byte>)   // float, double: the IEEE 754 bit pattern, little-endian
    | StringValue(s: string)
    | BytesValue(bytes: seq<byte>)
    | BoolValue(flag: bool)

  /** The number of bytes of a fixed-width type (0 for the variable-width ones). */
  function Width(t: VarType): nat
  {
    match t
    case Int16 | UInt16 => 2
    case Int32 | UInt32 | Single => 4
    case Int64 | UInt64 | Double => 8
    case Boolean => 1
    case _ => 0
  }

  predicate IsSigned(t: VarType)
  {
    t == Int16 || t == Int32 || t == Int64
  }

  predicate IsUnsigned(t: VarType)
  {
    t == UInt16 || t == UInt32 || t == UInt64
  }

  predicate IsFloating(t: VarType)
  {
    t == Single || t == Double
  }

  /** v is a value of the C# parameter type of the t-methods (the static types guarantee this in the source). */
  predicate Fits(t: VarType, v: Value)
  {
    match t
    case MetaData => v.StringValue?
    case Int16 | Int32 | Int64 => v.IntValue? && InSignedRange(v.i, Width(t))
    case UInt16 | UInt32 | UInt64 => v.UIntValue? && v.n < Pow256(Width(t))
    case Single | Double => v.FloatValue? && |v.bits| == Width(t)
    case String => v.StringValue?
    case ByteArray => v.BytesValue?
    case Boolean => v.BoolValue?
  }

  /** The table name, and the markup heading name, of each type. */
  function TableName(t: VarType): (n: string)
    ensures |n| > 0
  {
    match t
    case MetaData => "_MetaData"
    case Int16 => "Int16"
    case Int32 => "Int32"
    case Int64 => "Int64"
    case UInt16 => "UInt16"
    case UInt32 => "UInt32"
    case UInt64 => "UInt64"
    case Single => "Float"
    case Double => "Double"
    case String => "String"
    case ByteArray => "ByteArray"
    case Boolean => "Boolean"
  }

  /** Different types have different tables. */
  lemma TableNameInjective(t: VarType, u: VarType)
    requires TableName(t) == TableName(u)
    ensures t == u
  {
  }

  /**
   * BitConverter.GetBytes / Encoding.UTF8.GetBytes of a value: the bytes a DataEntry carries.
   * A signed value must lie in its type's range.
   */
  function EntryBytes(t: VarType, v: Value): (b: seq<byte>)
    requires v.IntValue? ==> InSignedRange(v.i, Width(t))
    ensures v.IntValue? || v.UIntValue? || v.BoolValue? ==> |b| == (if v.BoolValue? then 1 else Width(t))
  {
    match v
    case IntValue(i) => SignedToBytes(i, Width(t))
    case UIntValue(n) => ToLittleEndian(n, Width(t))
    case FloatValue(bits) => bits
    case StringValue(s) => Utf8.Encode(s)
    case BytesValue(b) => b
    case BoolValue(f) => BoolToBytes(f)
  }

  /** The record lists one after another, as List.AddRange builds them up. */
  function Flatten(ss: seq<seq<DataEntry>>): seq<DataEntry>
  {
    if ss == [] then [] else Flatten(ss[..|ss| - 1]) + ss[|ss| - 1]
  }

  /** What one GetAllX pass returns: a list, null, or an exception. */
  type Pass = Outcome<Option<seq<DataEntry>>>

  /** GetAllTypes: the non-null lists appended one after another; the first exception propagates. */
  function AppendAll(passes: seq<Pass>): (r: Outcome<seq<DataEntry>>)
  {
    if passes == [] then Ok([])
    else
      match AppendAll(passes[..|passes| - 1])
      case Threw(e) => Threw(e)
      case Ok(acc) =>
        match passes[|passes| - 1]
        case Threw(e) => Threw(e)
        case Ok(None) => Ok(acc)
        case Ok(Some(es)) => Ok(acc + es)
  }

  /** One more pass: appended to the lists so far unless one of them threw. */
  lemma AppendAllSnoc(passes: seq<Pass>, p: Pass)
    ensures AppendAll(passes + [p]) ==
      match AppendAll(passes)
      case Threw(e) => Threw(e)
      case Ok(acc) => (match p case Threw(e) => Threw(e) case Ok(None) => Ok(acc) case Ok(Some(es)) => Ok(acc + es))
  {
    assert (passes + [p])[..|passes|] == passes;
  }

  /** The lists of the passes that returned one, in order. */
  function Present(passes: seq<Pass>): (r: seq<seq<DataEntry>>)
    ensures |r| <= |passes|
  {
    if passes == [] then []
    else
      var init := Present(passes[..|passes| - 1]);
      match passes[|passes| - 1]
      case Ok(Some(es)) => init + [es]
      case _ => init
  }

  /** When no pass throws, the result is the concatenation of the lists that are not null. */
  lemma {:induction false} AppendAllConcatenates(passes: seq<Pass>)
    requires forall k :: 0 <= k < |passes| ==> passes[k].Ok?
    ensures AppendAll(passes) == Ok(Flatten(Present(passes)))
  {
    if passes != [] {
      var init := passes[..|passes| - 1];
      assert forall k :: 0 <= k < |init| ==> init[k] == passes[k];
      AppendAllConcatenates(init);
      var ps := Present(init);
      match passes[|passes| - 1]
      case Ok(None) =>
      case Ok(Some(es)) =>
        assert (ps + [es])[..|ps + [es]| - 1] == ps;
    }
  }

  /** The result throws exactly when some pass throws, and then what the first throwing pass threw. */
  lemma {:induction false} AppendAllFails(passes: seq<Pass>)
    ensures AppendAll(passes).Threw? <==> exists k :: 0 <= k < |passes| && passes[k].Threw?
    ensures AppendAll(passes).Threw? ==>
      exists k :: 0 <= k < |passes| && passes[k] == Threw(AppendAll(passes).error) &&
        forall j :: 0 <= j < k ==> passes[j].Ok?
  {
    if passes != [] {
      var init := passes[..|passes| - 1];
      assert forall k :: 0 <= k < |init| ==> init[k] == passes[k];
      AppendAllFails(init);
    }
  }

  /** One more pass: its list, when it returned one, follows the lists so far. */
  lemma PresentSnoc(passes: seq<Pass>, p: Pass)
    ensures Present(passes + [p]) == Present(passes) + (if p.Ok? && p.value.Some? then [p.value.value] else [])
  {
    assert (passes + [p])[..|passes|] == passes;
  }

  /** One more list: its records follow those of the lists before it. */
  lemma FlattenSnoc(ss: seq<seq<DataEntry>>, s: seq<DataEntry>)
    ensures Flatten(ss + [s]) == Flatten(ss) + s
  {
    assert (ss + [s])[..|ss|] == ss;
  }

  /**
   * A record is in the lists of the passes that returned one exactly when one of those passes
   * returned it: a pass that throws or returns null adds nothing and takes nothing away.
   */
  lemma {:induction false} FlattenPresentMembers(passes: seq<Pass>, e: DataEntry)
    ensures e in Flatten(Present(passes)) <==>
      exists k :: 0 <= k < |passes| && passes[k].Ok? && passes[k].value.Some? && e in passes[k].value.value
  {
    if passes != [] {
      var init := passes[..|passes| - 1];
      var p := passes[|passes| - 1];
      assert passes == init + [p];
      FlattenPresentMembers(init, e);
      PresentSnoc(init, p);
      if p.Ok? && p.value.Some? {
        FlattenSnoc(Present(init), p.value.value);
      }
      assert forall k :: 0 <= k < |init| ==> init[k] == passes[k];
    }
  }

  /** A metadata variable as AddMetaData receives it: name, group, value and description. */
  datatype MetaItem = MetaItem(name: string, group: string, value: string, desc: string)

  /**
   * The eight AddMetaData calls with which Open seeds a new file, in their order (SQLite.cs:36-43,
   * XML.cs:32-39); `mode` is the backend's name, the clock reading `now` is written in decimal.
   */
  function NewFileMeta(appVersion: string, formatVersion: string, now: int, mode: string): (items: seq<MetaItem>)
    ensures |items| == 8
  {
    var stamp := DecimalText.ShowInt(now);
    seq(8, k requires 0 <= k < 8 =>
      MetaItem(SeedName(k), SeedGroup(k), SeedValue(k, appVersion, formatVersion, stamp, mode), SeedDescription(k)))
  }

  /** Items 4 and 6 record when and by which backend the file was created. */
  lemma CreationItems(appVersion: string, formatVersion: string, now: int, mode: string)
    ensures var items := NewFileMeta(appVersion, formatVersion, now, mode);
      items[4].name == "SSM_CreationTimestamp" && items[4].value == DecimalText.ShowInt(now) &&
      items[6].name == "SSM_CreationMode" && items[6].value == mode
  {
    var items := NewFileMeta(appVersion, formatVersion, now, mode);
    assert items[4] == MetaItem(SeedName(4), SeedGroup(4), SeedValue(4, appVersion, formatVersion, DecimalText.ShowInt(now), mode), SeedDescription(4));
    assert items[6] == MetaItem(SeedName(6), SeedGroup(6), SeedValue(6, appVersion, formatVersion, DecimalText.ShowInt(now), mode), SeedDescription(6));
  }

  /** The name of the k-th seed item: creation and last-access keys alternate. */
  function SeedName(k: nat): string
  {
    match k
    case 0 => "SSM_CreationAppVersion"
    case 1 => "SSM_LastAccessAppVersion"
    case 2 => "SSM_CreationFormatVersion"
    case 3 => "SSM_LastAccessFormatVersion"
    case 4 => "SSM_CreationTimestamp"
    case 5 => "SSM_LastLoadedTimestamp"
    case 6 => "SSM_CreationMode"
    case _ => "SSM_LastAccessMode"
  }

  /** Creation keys go to HistoricalInfo, last-access keys to LastAccessInfo. */
  function SeedGroup(k: nat): string
  {
    if k % 2 == 0 then "HistoricalInfo" else "LastAccessInfo"
  }

  /** Each pair of seed items holds the app version, the format version, the clock reading, then the mode. */
  function SeedValue(k: nat, appVersion: string, formatVersion: string, stamp: string, mode: string): string
  {
    match k / 2
    case 0 => appVersion
    case 1 => formatVersion
    case 2 => stamp
    case _ => mode
  }

  /** The description AddMetaData stores with the k-th seed item. */
  function SeedDescription(k: nat): string
  {
    match k
    case 0 => "The version of SSM used to create the SSM file."
    case 1 => "The version of SSM used to last edit the SSM file."
    case 2 => "The original SSM Format version of the SSM file."
    case 3 => "The current SSM Format version of the SSM file."
    case 4 => "The timestamp of when the SSM file was created."
    case 5 => "The timestamp of when the SSM file was last loaded."
    case 6 => "The SSM mode used to create the SSM file."
    case _ => "The SSM mode used to last access the SSM file."
  }

  /** The eight seed names differ (their lengths already do), whatever the versions, the clock and the mode. */
  lemma NewFileNamesDistinct(appVersion: string, formatVersion: string, now: int, mode: string)
    ensures var items := NewFileMeta(appVersion, formatVersion, now, mode);
      forall i, j :: 0 <= i < j < 8 ==> items[i].name != items[j].name
  {
    var it := NewFileMeta(appVersion, formatVersion, now, mode);
    SeedNameLengths();
    DistinctByLength(it);
  }

  lemma SeedNameLengths()
    ensures |SeedName(0)| == 22 && |SeedName(1)| == 24 && |SeedName(2)| == 25 && |SeedName(3)| == 27
    ensures |SeedName(4)| == 21 && |SeedName(5)| == 23 && |SeedName(6)| == 16 && |SeedName(7)| == 18
  {
  }

  /** Eight names of eight different lengths are eight different names. */
  lemma DistinctByLength(items: seq<MetaItem>)
    requires |items| == 8
    requires |items[0].name| == 22 && |items[1].name| == 24 && |items[2].name| == 25 && |items[3].name| == 27
    requires |items[4].name| == 21 && |items[5].name| == 23 && |items[6].name| == 16 && |items[7].name| == 18
    ensures forall i, j :: 0 <= i < j < 8 ==> items[i].name != items[j].name
  {
    assert forall i, j :: 0 <= i < j < 8 ==> |items[i].name| != |items[j].name|;
  }

  /** The three metadata keys Open rewrites in an existing file. */
  predicate IsRefreshedKey(m: string)
  {
    m == "SSM_LastAccessFormatVersion" || m == "SSM_LastLoadedTimestamp" || m == "SSM_LastAccessMode"
  }
}

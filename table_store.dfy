/**
 * The database behind the SQLite backend, as values: one table per type (plus `_MetaData`), each an
 * ordered sequence of rows, and what each SQL statement of SQLite.cs does to them.
 * `WHERE VariableName = @varName` is a filter on a table's rows; an UPDATE rewrites every row the
 * filter selects, a DELETE drops them, a SELECT reads the first one.
 */
module TableStore {
  import opened Wrappers
  import opened Bytes
  import opened Data
  import Utf8
  import DecimalText

  /** A stored value, by SQLite storage class. */
  datatype Cell = Null | Integer(i: int) | Real(bits: seq<byte>) | Text(s: string) | Blob(b: seq<byte>)

  /** A row: VariableName, VariableGroup, VariableValue, VariableDefault (Null in `_MetaData`, which has no such column), VariableDesc. */
  datatype Row = Row(name: string, group: string, value: Cell, default: Cell, desc: string)

  /** The tables that exist, by type. */
  type Tables = map<VarType, seq<Row>>

  // ---------------------------------------------------------------- well-formed tables

  /** The cell the column types of each table hold as a value. */
  predicate ValueCellOk(t: VarType, c: Cell)
  {
    match t
    case MetaData | String => c.Text?
    case Int16 | Int32 | Int64 => c.Integer? && InSignedRange(c.i, Width(t))
    case UInt16 | UInt32 | UInt64 => c.Blob? && |c.b| == Width(t)
    case Single | Double => c.Real? && |c.bits| == Width(t)
    case ByteArray => c.Blob?
    case Boolean => c.Integer? && 0 <= c.i <= 1
  }

  /**
   * The default column holds what the value column holds; ImportDataEntry can also leave the
   * native number in an unsigned table's default column (SQLite.cs:517, 530, 543).
   */
  predicate DefaultCellOk(t: VarType, c: Cell)
  {
    if t == MetaData then c == Null
    else ValueCellOk(t, c) || (IsUnsigned(t) && c.Integer? && 0 <= c.i < Pow256(Width(t)))
  }

  predicate RowOk(t: VarType, r: Row)
  {
    ValueCellOk(t, r.value) && DefaultCellOk(t, r.default)
  }

  predicate UniqueNames(rows: seq<Row>)
  {
    forall i, j :: 0 <= i < j < |rows| ==> rows[i].name != rows[j].name
  }

  predicate RowsOk(t: VarType, rows: seq<Row>)
  {
    UniqueNames(rows) && forall k :: 0 <= k < |rows| ==> RowOk(t, rows[k])
  }

  /** What every operation keeps: well-typed cells and one row per name in each table. */
  predicate TablesOk(tabs: Tables)
  {
    forall t :: t in tabs ==> RowsOk(t, tabs[t])
  }

  // ---------------------------------------------------------------- queries

  /** SELECT COUNT(1) ... WHERE VariableName = @varName is positive. */
  predicate HasRow(rows: seq<Row>, name: string)
  {
    exists k :: 0 <= k < |rows| && rows[k].name == name
  }

  /** DoesVariableExist / DoesMetaDataVariableExist: the table exists and has a row of that name. */
  predicate VariableExists(tabs: Tables, t: VarType, name: string)
  {
    t in tabs && HasRow(tabs[t], name)
  }

  /** The position of the first row of that name: the one `reader.Read()` yields first. */
  function FirstRow(rows: seq<Row>, name: string): (k: nat)
    requires HasRow(rows, name)
    ensures k < |rows| && rows[k].name == name
    ensures forall j :: 0 <= j < k ==> rows[j].name != name
  {
    if rows[0].name == name then 0
    else
      assert HasRow(rows[1..], name) by {
        var k :| 0 <= k < |rows| && rows[k].name == name;
        assert rows[1..][k - 1].name == name;
      }
      1 + FirstRow(rows[1..], name)
  }

  lemma UniqueFirstRow(rows: seq<Row>, name: string, k: nat)
    requires UniqueNames(rows) && k < |rows| && rows[k].name == name
    ensures HasRow(rows, name) && FirstRow(rows, name) == k
  {
  }

  /** The first row of a name is the one with no earlier row of that name. */
  lemma FirstRowIs(rows: seq<Row>, name: string, k: nat)
    requires k < |rows| && rows[k].name == name
    requires forall j :: 0 <= j < k ==> rows[j].name != name
    ensures HasRow(rows, name) && FirstRow(rows, name) == k
  {
  }

  /** Appending a row keeps the first row of every name already present. */
  lemma AppendFirstRow(rows: seq<Row>, row: Row, name: string)
    requires HasRow(rows, name)
    ensures HasRow(rows + [row], name) && FirstRow(rows + [row], name) == FirstRow(rows, name)
  {
    var k := FirstRow(rows, name);
    FirstRowIs(rows + [row], name, k);
  }

  /** An appended row of a new name is the first row of that name. */
  lemma AppendNewRow(rows: seq<Row>, row: Row)
    requires !HasRow(rows, row.name)
    ensures HasRow(rows + [row], row.name) && FirstRow(rows + [row], row.name) == |rows|
  {
    FirstRowIs(rows + [row], row.name, |rows|);
  }

  // ---------------------------------------------------------------- statements

  /** CREATE TABLE IF NOT EXISTS. */
  function CreateTable(tabs: Tables, t: VarType): (r: Tables)
    ensures t in r && r.Keys == tabs.Keys + {t}
    ensures forall u :: u in tabs ==> r[u] == tabs[u]
    ensures t !in tabs ==> r[t] == []
  {
    if t in tabs then tabs else tabs[t := []]
  }

  /** UPDATE ... SET VariableValue = c WHERE VariableName = name. */
  function SetValueWhere(rows: seq<Row>, name: string, c: Cell): (r: seq<Row>)
    ensures |r| == |rows|
    ensures forall k :: 0 <= k < |rows| ==> r[k] == if rows[k].name == name then rows[k].(value := c) else rows[k]
  {
    seq(|rows|, k requires 0 <= k < |rows| => if rows[k].name == name then rows[k].(value := c) else rows[k])
  }

  /** UPDATE ... SET VariableGroup = group, VariableDesc = desc WHERE VariableName = name. */
  function EditWhere(rows: seq<Row>, name: string, group: string, desc: string): (r: seq<Row>)
    ensures |r| == |rows|
    ensures forall k :: 0 <= k < |rows| ==>
      r[k] == if rows[k].name == name then rows[k].(group := group, desc := desc) else rows[k]
  {
    seq(|rows|, k requires 0 <= k < |rows| =>
      if rows[k].name == name then rows[k].(group := group, desc := desc) else rows[k])
  }

  /** UPDATE ... SET VariableDefault = c WHERE VariableName = name. */
  function SetDefaultWhere(rows: seq<Row>, name: string, c: Cell): (r: seq<Row>)
    ensures |r| == |rows|
    ensures forall k :: 0 <= k < |rows| ==> r[k] == if rows[k].name == name then rows[k].(default := c) else rows[k]
  {
    seq(|rows|, k requires 0 <= k < |rows| => if rows[k].name == name then rows[k].(default := c) else rows[k])
  }

  /** DELETE FROM ... WHERE VariableName = name. */
  function DeleteWhere(rows: seq<Row>, name: string): (r: seq<Row>)
    ensures |r| <= |rows|
  {
    if rows == [] then []
    else if rows[0].name == name then DeleteWhere(rows[1..], name)
    else [rows[0]] + DeleteWhere(rows[1..], name)
  }

  /** The rows DELETE keeps are exactly the rows of other names, still in their order. */
  lemma {:induction false} DeleteWhereKeeps(rows: seq<Row>, name: string)
    ensures forall k :: 0 <= k < |DeleteWhere(rows, name)| ==> DeleteWhere(rows, name)[k] in rows && DeleteWhere(rows, name)[k].name != name
    ensures forall r :: r in rows && r.name != name ==> r in DeleteWhere(rows, name)
  {
    if rows != [] {
      DeleteWhereKeeps(rows[1..], name);
      var rest := DeleteWhere(rows[1..], name);
      forall r | r in rows && r.name != name ensures r in DeleteWhere(rows, name) {
        if r != rows[0] {
          var k :| 0 <= k < |rows| && rows[k] == r;
          assert rows[1..][k - 1] == r;
        }
      }
    }
  }

  /** On a table with one row per name, DELETE drops exactly the named row. */
  lemma {:induction false} DeleteWhereUnique(rows: seq<Row>, name: string)
    requires UniqueNames(rows) && HasRow(rows, name)
    ensures DeleteWhere(rows, name) == rows[..FirstRow(rows, name)] + rows[FirstRow(rows, name) + 1..]
  {
    var k := FirstRow(rows, name);
    if k == 0 {
      NoRowKept(rows[1..], name);
    } else {
      var tail := rows[1..];
      assert rows[0].name != name;
      assert UniqueNames(tail) by {
        assert forall i :: 0 <= i < |tail| ==> tail[i] == rows[i + 1];
      }
      assert tail[k - 1].name == name;
      UniqueFirstRow(tail, name, k - 1);
      DeleteWhereUnique(tail, name);
      assert DeleteWhere(rows, name) == [rows[0]] + (tail[..k - 1] + tail[k..]);
      assert tail[..k - 1] == rows[1..k] && tail[k..] == rows[k + 1..];
      assert [rows[0]] + rows[1..k] == rows[..k];
    }
  }

  lemma {:induction false} NoRowKept(rows: seq<Row>, name: string)
    requires forall k :: 0 <= k < |rows| ==> rows[k].name != name
    ensures DeleteWhere(rows, name) == rows
  {
    if rows != [] {
      NoRowKept(rows[1..], name);
    }
  }

  lemma {:induction false} DeleteWhereRowsOk(t: VarType, rows: seq<Row>, name: string)
    requires RowsOk(t, rows)
    ensures RowsOk(t, DeleteWhere(rows, name)) && !HasRow(DeleteWhere(rows, name), name)
  {
    if rows != [] {
      DeleteWhereRowsOk(t, rows[1..], name);
      DeleteWhereKeeps(rows[1..], name);
      var rest := DeleteWhere(rows[1..], name);
      if rows[0].name != name {
        forall k | 0 <= k < |rest| ensures rest[k].name != rows[0].name {
          var m :| 0 <= m < |rows[1..]| && rows[1..][m] == rest[k];
          assert rows[m + 1] == rest[k];
        }
        ConsRowsOk(t, rows[0], rest);
      }
    }
  }

  /** A well-typed row in front of well-typed rows of other names keeps the table well-formed. */
  lemma ConsRowsOk(t: VarType, x: Row, rest: seq<Row>)
    requires RowOk(t, x) && RowsOk(t, rest) && forall k :: 0 <= k < |rest| ==> rest[k].name != x.name
    ensures RowsOk(t, [x] + rest)
  {
    var r := [x] + rest;
    assert forall k :: 0 < k < |r| ==> r[k] == rest[k - 1];
  }

  /** Rows that are the old rows with only non-name fields rewritten. */
  predicate SameNames(a: seq<Row>, b: seq<Row>)
  {
    |a| == |b| && forall k :: 0 <= k < |a| ==> a[k].name == b[k].name
  }

  lemma SameNamesUnique(a: seq<Row>, b: seq<Row>)
    requires UniqueNames(a) && SameNames(a, b)
    ensures UniqueNames(b)
  {
    forall i, j | 0 <= i < j < |b| ensures b[i].name != b[j].name {
      assert a[i].name == b[i].name && a[j].name == b[j].name;
    }
  }

  /** Rewriting fields other than the name keeps where each name first occurs. */
  lemma SameNamesFirstRow(a: seq<Row>, b: seq<Row>, name: string)
    requires SameNames(a, b) && HasRow(a, name)
    ensures HasRow(b, name) && FirstRow(b, name) == FirstRow(a, name)
  {
    var k := FirstRow(a, name);
    assert b[k].name == name;
    FirstRowIs(b, name, k);
  }

  lemma SameNamesHasRow(a: seq<Row>, b: seq<Row>, name: string)
    requires SameNames(a, b)
    ensures HasRow(a, name) <==> HasRow(b, name)
  {
    if HasRow(a, name) {
      var k :| 0 <= k < |a| && a[k].name == name;
      assert b[k].name == name;
    }
    if HasRow(b, name) {
      var k :| 0 <= k < |b| && b[k].name == name;
      assert a[k].name == name;
    }
  }

  // ---------------------------------------------------------------- values and cells

  /** The cell AddVarToTable / SetVarInTable bind: unsigned values as their BitConverter bytes (SQLite.cs:882-889). */
  function ToCell(t: VarType, v: Value): (c: Cell)
    requires Fits(t, v)
    ensures ValueCellOk(t, c)
  {
    match v
    case IntValue(i) => Integer(i)
    case UIntValue(n) => Blob(ToLittleEndian(n, Width(t)))
    case FloatValue(bits) => Real(bits)
    case StringValue(s) => Text(s)
    case BytesValue(b) => Blob(b)
    case BoolValue(f) => Integer(if f then 1 else 0)
  }

  /** The cell EditVarDefaultInTable binds in ImportDataEntry: the native value, so an unsigned one as a number (SQLite.cs:517). */
  function NativeCell(t: VarType, v: Value): (c: Cell)
    requires t != MetaData && Fits(t, v)
    ensures DefaultCellOk(t, c)
  {
    if IsUnsigned(t) then Integer(v.n) else ToCell(t, v)
  }

  /** BitConverter.ToX(bytes, 0) / Encoding.UTF8.GetString(bytes) / the bytes: how ImportDataEntry reads a record's value. */
  function DecodeValue(t: VarType, b: seq<byte>): (r: Outcome<Value>)
    requires t != MetaData
    ensures r.Ok? ==> Fits(t, r.value)
    ensures r.Threw? ==> r.error == ArgumentError && |b| < Width(t)
  {
    match t
    case Int16 | Int32 | Int64 =>
      (match ReadSigned(b, Width(t))
       case Ok(i) =>
         assert InSignedRange(i, Width(t)) by { SignedFromBytesRange(b[..Width(t)]); }
         Ok(IntValue(i))
       case Threw(e) => Threw(e))
    case UInt16 | UInt32 | UInt64 =>
      (match ReadUnsigned(b, Width(t)) case Ok(n) => Ok(UIntValue(n)) case Threw(e) => Threw(e))
    case Single | Double => if |b| < Width(t) then Threw(ArgumentError) else Ok(FloatValue(b[..Width(t)]))
    case String => Ok(StringValue(Utf8.Decode(b)))
    case ByteArray => Ok(BytesValue(b))
    case Boolean => (match ReadBool(b) case Ok(f) => Ok(BoolValue(f)) case Threw(e) => Threw(e))
  }

  lemma SignedFromBytesRange(b: seq<byte>)
    ensures InSignedRange(SignedFromBytes(b), |b|)
  {
  }

  /** Reading back the bytes of a record gives the value they were made from. */
  lemma DecodeEntryBytes(t: VarType, v: Value)
    requires t != MetaData && Fits(t, v)
    ensures DecodeValue(t, EntryBytes(t, v)) == Ok(v)
  {
    match v
    case IntValue(i) => ReadSignedOfEncoding(i, Width(t));
    case UIntValue(n) =>
      ReadUnsignedOfEncoding(n, Width(t), []);
      assert ToLittleEndian(n, Width(t)) + [] == ToLittleEndian(n, Width(t));
    case FloatValue(bits) => assert bits[..Width(t)] == bits;
    case StringValue(s) => Utf8.DecodeEncode(s);
    case BytesValue(b) =>
    case BoolValue(f) =>
  }

  // ---------------------------------------------------------------- what GetVarInTable returns

  /** The `object` GetVarInTable returns: null, a cell as the reader gives it, or a decoded unsigned number. */
  datatype Obj = NullObj | CellObj(cell: Cell) | UIntObj(n: nat)

  /**
   * GetVarInTable: null when the variable does not exist; otherwise the first matching row's value,
   * which for an unsigned table goes through (byte[]) and BitConverter.ToUIntN (SQLite.cs:951-956).
   */
  function GetVarInTable(tabs: Tables, name: string, t: VarType): (r: Outcome<Obj>)
    ensures !VariableExists(tabs, t, name) ==> r == Ok(NullObj)
  {
    if !VariableExists(tabs, t, name) then Ok(NullObj)
    else
      var c := tabs[t][FirstRow(tabs[t], name)].value;
      if IsUnsigned(t) then
        if c.Blob? then
          match ReadUnsigned(c.b, Width(t))
          case Ok(n) => Ok(UIntObj(n))
          case Threw(e) => Threw(e)
        else Threw(InvalidCast)
      else Ok(CellObj(c))
  }

  /**
   * GetX: Convert.ToX of GetVarInTable's object. A missing variable reads as 0, 0.0, "" or false;
   * GetByteArray passes the object to BinaryFormatter (`serialize`), which refuses null.
   */
  function GetValue(tabs: Tables, t: VarType, name: string, serialize: seq<byte> -> seq<byte>): (r: Outcome<Value>)
    requires t != MetaData
    ensures !VariableExists(tabs, t, name) ==> r == if t == ByteArray then Threw(ArgumentError) else Ok(ZeroValue(t))
  {
    match GetVarInTable(tabs, name, t)
    case Threw(e) => Threw(e)
    case Ok(NullObj) => if t == ByteArray then Threw(ArgumentError) else Ok(ZeroValue(t))
    case Ok(UIntObj(n)) => Ok(UIntValue(n))
    case Ok(CellObj(c)) =>
      match t
      case Int16 | Int32 | Int64 =>
        if c.Integer? then (if InSignedRange(c.i, Width(t)) then Ok(IntValue(c.i)) else Threw(OverflowError))
        else Threw(InvalidCast)
      case Single | Double => if c.Real? then Ok(FloatValue(c.bits)) else Threw(InvalidCast)
      case String => if c.Text? then Ok(StringValue(c.s)) else Threw(InvalidCast)
      case ByteArray => if c.Blob? then Ok(BytesValue(serialize(c.b))) else Threw(InvalidCast)
      case Boolean => if c.Integer? then Ok(BoolValue(c.i != 0)) else Threw(InvalidCast)
      case _ => Threw(InvalidCast)
  }

  /** What Convert.ToX(null) gives. */
  function ZeroValue(t: VarType): (v: Value)
    requires t != MetaData && t != ByteArray
    ensures Fits(t, v)
  {
    match t
    case Int16 | Int32 | Int64 => IntValue(0)
    case UInt16 | UInt32 | UInt64 => UIntValue(0)
    case Single | Double => FloatValue(ZeroBits(Width(t)))
    case String => StringValue("")
    case Boolean => BoolValue(false)
  }

  /**
   * What GetX returns for a variable whose value cell holds v: v itself, except that GetByteArray
   * returns the BinaryFormatter form of the stored bytes (SQLite.cs:318).
   */
  function ReadBack(t: VarType, v: Value, serialize: seq<byte> -> seq<byte>): Value
    requires Fits(t, v)
  {
    if t == ByteArray then BytesValue(serialize(v.bytes)) else v
  }

  /** A stored value cell reads back as the value it was made from (the unsigned bytes decode to the number). */
  lemma GetValueOfCell(tabs: Tables, t: VarType, name: string, v: Value, serialize: seq<byte> -> seq<byte>)
    requires t != MetaData && Fits(t, v)
    requires VariableExists(tabs, t, name) && tabs[t][FirstRow(tabs[t], name)].value == ToCell(t, v)
    ensures GetValue(tabs, t, name, serialize) == Ok(ReadBack(t, v, serialize))
  {
    if IsUnsigned(t) {
      ReadUnsignedOfEncoding(v.n, Width(t), []);
      assert ToLittleEndian(v.n, Width(t)) + [] == ToLittleEndian(v.n, Width(t));
    }
  }

  // ---------------------------------------------------------------- records (GetAll*)

  /** The type GetAllInt32 and GetAllUInt32 tag their records with as written (SQLite.cs:662, 719): Int16 and UInt16. */
  function RecordTagAsWritten(t: VarType): VarType
  {
    if t == Int32 then Int16 else if t == UInt32 then UInt16 else t
  }

  /**
   * As written, an exported Int32 record is tagged Int16, and importing it reads its first two
   * bytes only: 65536 comes back as 0.
   */
  lemma Int32RecordMislabelled()
    ensures RecordTagAsWritten(Int32) == Int16
    ensures DecodeValue(Int16, SignedToBytes(65536, Width(Int32))) == Ok(IntValue(0))
  {
    var b := SignedToBytes(65536, 4);
    assert b == ToLittleEndian(65536, 4);
    assert b[..2] == [0, 0];
  }

  /** The bytes a GetAll pass makes of a well-typed cell. */
  function CellBytes(t: VarType, c: Cell, serialize: seq<byte> -> seq<byte>): (r: Outcome<seq<byte>>)
    requires ValueCellOk(t, c) || (t != MetaData && DefaultCellOk(t, c))
  {
    match t
    case MetaData | String => Ok(Utf8.Encode(c.s))
    case Int16 | Int32 | Int64 => Ok(SignedToBytes(c.i, Width(t)))
    case UInt16 | UInt32 | UInt64 => if c.Blob? then Ok(c.b) else Threw(InvalidCast)
    case Single | Double => Ok(c.bits)
    case ByteArray => Ok(serialize(c.b))
    case Boolean => Ok(BoolToBytes(c.i != 0))
  }

  /** The DataEntry for one row; the metadata table's value column stands in for its missing default (SQLite.cs:624). */
  function RecordOf(t: VarType, r: Row, serialize: seq<byte> -> seq<byte>): (e: Outcome<DataEntry>)
    requires RowOk(t, r)
    ensures e.Ok? ==> e.value.name == r.name && e.value.group == r.group && e.value.description == r.desc
    ensures e.Ok? ==> e.value.variableType == t
    ensures e.Threw? ==> IsUnsigned(t) && !r.default.Blob? && e.error == InvalidCast
  {
    match CellBytes(t, r.value, serialize)
    case Threw(err) => Threw(err)
    case Ok(vb) =>
      if t == MetaData then Ok(DataEntry(MetaData, r.name, r.group, vb, vb, r.desc))
      else
        match CellBytes(t, r.default, serialize)
        case Threw(err) => Threw(err)
        case Ok(db) => Ok(DataEntry(t, r.name, r.group, vb, db, r.desc))
  }

  /** The records of a table's rows in table order, or the exception of the first row that cannot be read. */
  function Records(t: VarType, rows: seq<Row>, serialize: seq<byte> -> seq<byte>): (r: Outcome<seq<DataEntry>>)
    requires forall k :: 0 <= k < |rows| ==> RowOk(t, rows[k])
    ensures r.Threw? ==> r.error == InvalidCast
  {
    if rows == [] then Ok([])
    else
      match Records(t, rows[..|rows| - 1], serialize)
      case Threw(err) => Threw(err)
      case Ok(prefix) =>
        match RecordOf(t, rows[|rows| - 1], serialize)
        case Threw(err) => Threw(err)
        case Ok(e) => Ok(prefix + [e])
  }

  /** One record per row, in order, carrying the row's name, group and description. */
  lemma {:induction false} RecordsShape(t: VarType, rows: seq<Row>, serialize: seq<byte> -> seq<byte>)
    requires forall k :: 0 <= k < |rows| ==> RowOk(t, rows[k])
    requires Records(t, rows, serialize).Ok?
    ensures var es := Records(t, rows, serialize).value;
      |es| == |rows| &&
      forall k :: 0 <= k < |rows| ==> RecordOf(t, rows[k], serialize).Ok? && es[k] == RecordOf(t, rows[k], serialize).value
  {
    if rows != [] {
      var init := rows[..|rows| - 1];
      var last := rows[|rows| - 1];
      assert forall k :: 0 <= k < |init| ==> init[k] == rows[k];
      assert Records(t, init, serialize).Ok? && RecordOf(t, last, serialize).Ok?;
      RecordsShape(t, init, serialize);
      var pre := Records(t, init, serialize).value;
      var es := Records(t, rows, serialize).value;
      assert es == pre + [RecordOf(t, last, serialize).value];
      forall k | 0 <= k < |rows| ensures RecordOf(t, rows[k], serialize).Ok? && es[k] == RecordOf(t, rows[k], serialize).value {
        if k < |init| {
          assert init[k] == rows[k] && es[k] == pre[k];
        }
      }
    }
  }

  /** A table read fails exactly when one of its rows cannot be read. */
  lemma {:induction false} RecordsFail(t: VarType, rows: seq<Row>, serialize: seq<byte> -> seq<byte>)
    requires forall k :: 0 <= k < |rows| ==> RowOk(t, rows[k])
    ensures Records(t, rows, serialize).Threw? <==> exists k :: 0 <= k < |rows| && RecordOf(t, rows[k], serialize).Threw?
  {
    if Records(t, rows, serialize).Threw? {
      RecordsThrowSome(t, rows, serialize);
    }
    if exists k :: 0 <= k < |rows| && RecordOf(t, rows[k], serialize).Threw? {
      var k :| 0 <= k < |rows| && RecordOf(t, rows[k], serialize).Threw?;
      RecordsThrowAt(t, rows, k, serialize);
    }
  }

  /** A row that cannot be read makes the whole table read throw. */
  lemma {:induction false} RecordsThrowAt(t: VarType, rows: seq<Row>, k: nat, serialize: seq<byte> -> seq<byte>)
    requires forall j :: 0 <= j < |rows| ==> RowOk(t, rows[j])
    requires k < |rows| && RecordOf(t, rows[k], serialize).Threw?
    ensures Records(t, rows, serialize).Threw?
  {
    if k < |rows| - 1 {
      var init := rows[..|rows| - 1];
      assert forall j :: 0 <= j < |init| ==> init[j] == rows[j];
      RecordsThrowAt(t, init, k, serialize);
    }
  }

  /** A table read that throws has met a row that cannot be read. */
  lemma {:induction false} RecordsThrowSome(t: VarType, rows: seq<Row>, serialize: seq<byte> -> seq<byte>)
    requires forall j :: 0 <= j < |rows| ==> RowOk(t, rows[j])
    requires Records(t, rows, serialize).Threw?
    ensures exists k :: 0 <= k < |rows| && RecordOf(t, rows[k], serialize).Threw?
  {
    var init := rows[..|rows| - 1];
    assert forall j :: 0 <= j < |init| ==> init[j] == rows[j];
    if Records(t, init, serialize).Threw? {
      RecordsThrowSome(t, init, serialize);
      var k :| 0 <= k < |init| && RecordOf(t, init[k], serialize).Threw?;
      assert init[k] == rows[k];
    } else {
      assert RecordOf(t, rows[|rows| - 1], serialize).Threw?;
    }
  }

  /** One more row of the read loop: its record is appended, or the whole table read throws. */
  lemma RecordsStep(t: VarType, rows: seq<Row>, i: nat, acc: seq<DataEntry>, serialize: seq<byte> -> seq<byte>)
    requires forall k :: 0 <= k < |rows| ==> RowOk(t, rows[k])
    requires i < |rows| && Records(t, rows[..i], serialize) == Ok(acc)
    ensures RecordOf(t, rows[i], serialize).Threw? ==> Records(t, rows, serialize) == Threw(InvalidCast)
    ensures RecordOf(t, rows[i], serialize).Ok? ==>
      Records(t, rows[..i + 1], serialize) == Ok(acc + [RecordOf(t, rows[i], serialize).value])
  {
    assert rows[..i + 1][..i] == rows[..i];
    if RecordOf(t, rows[i], serialize).Threw? {
      RecordsFail(t, rows, serialize);
    }
  }

  /** Only an unsigned table can fail to be read, and only through a default that is not a blob. */
  lemma RecordsOfOtherTables(t: VarType, rows: seq<Row>, serialize: seq<byte> -> seq<byte>)
    requires forall k :: 0 <= k < |rows| ==> RowOk(t, rows[k])
    requires !IsUnsigned(t) || forall k :: 0 <= k < |rows| ==> rows[k].default.Blob?
    ensures Records(t, rows, serialize).Ok?
  {
    RecordsFail(t, rows, serialize);
  }

  /** Every metadata record carries its value as its default, too. */
  lemma MetaRecordsDefaultIsValue(rows: seq<Row>, serialize: seq<byte> -> seq<byte>, k: nat)
    requires forall j :: 0 <= j < |rows| ==> RowOk(MetaData, rows[j])
    requires Records(MetaData, rows, serialize).Ok? && k < |rows|
    ensures k < |Records(MetaData, rows, serialize).value|
    ensures var e := Records(MetaData, rows, serialize).value[k];
      e.default == e.value && e.variableType == MetaData && e.value == Utf8.Encode(rows[k].value.s)
  {
    RecordsShape(MetaData, rows, serialize);
  }

  /** A record exported from a table imports back as the row's own value (the signed, float, string and boolean tables). */
  lemma RecordValueDecodes(t: VarType, r: Row, v: Value, serialize: seq<byte> -> seq<byte>)
    requires t != MetaData && !IsUnsigned(t) && t != ByteArray && RowOk(t, r)
    requires Fits(t, v) && r.value == ToCell(t, v)
    ensures RecordOf(t, r, serialize).Ok?
    ensures DecodeValue(t, RecordOf(t, r, serialize).value.value) == Ok(v)
  {
    assert CellBytes(t, r.value, serialize) == Ok(EntryBytes(t, v));
    DecodeEntryBytes(t, v);
  }

  /** The passes of GetAllTypes, in its order (SQLite.cs:844-855). */
  const TypeOrder: seq<VarType> :=
    [MetaData, Int16, Int32, Int64, UInt16, UInt32, UInt64, Single, Double, String, ByteArray, Boolean]

  /** A GetAll pass: null for a table that does not exist. */
  function TableRecords(tabs: Tables, t: VarType, serialize: seq<byte> -> seq<byte>): (r: Outcome<Option<seq<DataEntry>>>)
    requires TablesOk(tabs)
    ensures (t !in tabs) <==> r == Ok(None)
  {
    if t !in tabs then Ok(None)
    else match Records(t, tabs[t], serialize)
      case Threw(e) => Threw(e)
      case Ok(es) => Ok(Some(es))
  }

  /** GetAll of one type, as a function of the type. */
  function PassOf(tabs: Tables, serialize: seq<byte> -> seq<byte>): VarType -> Pass
    requires TablesOk(tabs)
  {
    (t: VarType) => TableRecords(tabs, t, serialize)
  }

  /** The passes GetAllTypes makes, one GetAll per type of `order`. */
  function TablePasses(tabs: Tables, order: seq<VarType>, serialize: seq<byte> -> seq<byte>): (ps: seq<Pass>)
    requires TablesOk(tabs)
    ensures |ps| == |order|
  {
    Map(PassOf(tabs, serialize), order)
  }

  /** Pass k is the GetAll of the k-th type. */
  lemma TablePassesAt(tabs: Tables, order: seq<VarType>, k: nat, serialize: seq<byte> -> seq<byte>)
    requires TablesOk(tabs) && k < |order|
    ensures TablePasses(tabs, order, serialize)[k] == TableRecords(tabs, order[k], serialize)
  {
    MapAt(PassOf(tabs, serialize), order, k);
  }

  /** One more type: its pass follows those of the types before it. */
  lemma TablePassesSnoc(tabs: Tables, order: seq<VarType>, k: nat, serialize: seq<byte> -> seq<byte>)
    requires TablesOk(tabs) && k < |order|
    ensures TablePasses(tabs, order[..k + 1], serialize) == TablePasses(tabs, order[..k], serialize) + [TableRecords(tabs, order[k], serialize)]
  {
    MapSnoc(PassOf(tabs, serialize), order, k);
  }

  /** AddRange of each non-null pass onto what the earlier passes collected; the first exception ends it. */
  function CollectAll(tabs: Tables, order: seq<VarType>, serialize: seq<byte> -> seq<byte>): Outcome<seq<DataEntry>>
    requires TablesOk(tabs)
  {
    AppendAll(TablePasses(tabs, order, serialize))
  }

  /**
   * GetAllTypes throws exactly when one of its passes throws; otherwise it is the concatenation
   * of the existing tables' records in the fixed order, and missing tables contribute nothing.
   */
  lemma CollectAllCollects(tabs: Tables, serialize: seq<byte> -> seq<byte>)
    requires TablesOk(tabs)
    ensures CollectAll(tabs, TypeOrder, serialize).Threw? <==>
      exists k :: 0 <= k < 12 && TableRecords(tabs, TypeOrder[k], serialize).Threw?
    ensures (forall k :: 0 <= k < 12 ==> TableRecords(tabs, TypeOrder[k], serialize).Ok?) ==>
      CollectAll(tabs, TypeOrder, serialize) == Ok(Flatten(Present(TablePasses(tabs, TypeOrder, serialize))))
  {
    var ps := TablePasses(tabs, TypeOrder, serialize);
    forall k | 0 <= k < 12
      ensures ps[k] == TableRecords(tabs, TypeOrder[k], serialize)
    {
      TablePassesAt(tabs, TypeOrder, k, serialize);
    }
    AppendAllFails(ps);
    if forall k :: 0 <= k < 12 ==> TableRecords(tabs, TypeOrder[k], serialize).Ok? {
      AppendAllConcatenates(ps);
    }
  }
}

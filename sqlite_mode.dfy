/**
 * The SQLite backend (Mode/SQLite.cs): the public operations as the methods of a class whose
 * state is the database's tables, each proved against a function of the old tables, and what
 * those functions promise.
 */
module SQLiteMode {
  import opened Wrappers
  import opened Bytes
  import opened Data
  import opened TableStore
  import DecimalText
  import Utf8

  // ---------------------------------------------------------------- the operations on tables

  /** AddX: CREATE TABLE IF NOT EXISTS, then AddVarToTable: a new row whose default is its value, unless the name is taken. */
  function AddSpec(tabs: Tables, t: VarType, name: string, group: string, c: Cell, desc: string): Tables
  {
    var created := CreateTable(tabs, t);
    if HasRow(created[t], name) then created else created[t := created[t] + [Row(name, group, c, c, desc)]]
  }

  /** SetX / SetVarInTable. */
  function SetSpec(tabs: Tables, t: VarType, name: string, c: Cell): Tables
  {
    if VariableExists(tabs, t, name) then tabs[t := SetValueWhere(tabs[t], name, c)] else tabs
  }

  /** EditX / EditVarInTable with the SET keyword its UPDATE statement needs. */
  function EditSpec(tabs: Tables, t: VarType, name: string, group: string, desc: string): Tables
  {
    if VariableExists(tabs, t, name) then tabs[t := EditWhere(tabs[t], name, group, desc)] else tabs
  }

  /** EditVarDefaultInTable. */
  function SetDefaultSpec(tabs: Tables, t: VarType, name: string, c: Cell): Tables
  {
    if VariableExists(tabs, t, name) then tabs[t := SetDefaultWhere(tabs[t], name, c)] else tabs
  }

  /** DeleteX / DeleteVarInTable. */
  function DeleteSpec(tabs: Tables, t: VarType, name: string): Tables
  {
    if VariableExists(tabs, t, name) then tabs[t := DeleteWhere(tabs[t], name)] else tabs
  }

  /** AddMetaData: an INSERT without table creation, so it throws when `_MetaData` does not exist. */
  function AddMetaOutcome(tabs: Tables, name: string): (r: Outcome<bool>)
    ensures r == Ok(false) <==> VariableExists(tabs, MetaData, name)
    ensures r.Threw? <==> MetaData !in tabs
  {
    if VariableExists(tabs, MetaData, name) then Ok(false)
    else if MetaData in tabs then Ok(true)
    else Threw(SqlError)
  }

  function AddMetaSpec(tabs: Tables, name: string, group: string, value: string, desc: string): Tables
  {
    if MetaData !in tabs || HasRow(tabs[MetaData], name) then tabs
    else tabs[MetaData := tabs[MetaData] + [Row(name, group, Text(value), Null, desc)]]
  }

  /** The eight rows AddNewSsmMetaData writes into a new file: the seed items, with no default. */
  function SeedRows(appVersion: string, formatVersion: string, now: int): (rows: seq<Row>)
    ensures |rows| == 8
  {
    var items := NewFileMeta(appVersion, formatVersion, now, "SQLite");
    seq(8, k requires 0 <= k < 8 => Row(items[k].name, items[k].group, Text(items[k].value), Null, items[k].desc))
  }

  /** ExistingSsmMetaData: three SetMetaData calls (SQLite.cs:48-50). */
  function RefreshSpec(tabs: Tables, formatVersion: string, now: int): Tables
  {
    var t1 := SetSpec(tabs, MetaData, "SSM_LastAccessFormatVersion", Text(formatVersion));
    var t2 := SetSpec(t1, MetaData, "SSM_LastLoadedTimestamp", Text(DecimalText.ShowInt(now)));
    SetSpec(t2, MetaData, "SSM_LastAccessMode", Text("SQLite"))
  }

  /** Open: a new file gets `_MetaData` and its eight rows; an existing one has three of them refreshed. */
  function OpenSpec(existing: Option<Tables>, appVersion: string, formatVersion: string, now: int): Tables
  {
    match existing
    case None => map[MetaData := SeedRows(appVersion, formatVersion, now)]
    case Some(tabs) => RefreshSpec(tabs, formatVersion, now)
  }

  const UInt64Bound: nat := 0x1_0000_0000_0000_0000

  /** Convert.ToUInt64(object) of what GetVarInTable returns for a metadata variable: null is 0, text is parsed. */
  function ToUInt64(o: Obj): (r: Outcome<nat>)
    ensures r.Ok? ==> r.value < UInt64Bound
  {
    match o
    case NullObj => Ok(0)
    case CellObj(Text(s)) =>
      (match DecimalText.ParseInt(s, 0, UInt64Bound - 1) case Ok(n) => Ok(n) case Threw(e) => Threw(e))
    case _ => Threw(InvalidCast)
  }

  /** The text of the migration counter after one more migration: `totalMigrations++` on a ulong wraps. */
  function NextCount(n: nat): nat
  {
    (n + 1) % UInt64Bound
  }

  const LastMigrationDesc := "The timestamp of when the SSM file was last migrated."
  const MigrationCountDesc := "The total number of migrations the SSM file has gone through."

  /** The first step of UpdateMigrationStatus: SSM_LastMigration is added, or set when it exists. */
  function StampSpec(tabs: Tables, now: int): Tables
  {
    var stamp := DecimalText.ShowInt(now);
    if VariableExists(tabs, MetaData, "SSM_LastMigration")
    then SetSpec(tabs, MetaData, "SSM_LastMigration", Text(stamp))
    else AddMetaSpec(tabs, "SSM_LastMigration", "MigrationInfo", stamp, LastMigrationDesc)
  }

  /** UpdateMigrationStatus (SQLite.cs:58-70): the step that throws ends it, the earlier steps stay done. */
  function MigrationSpec(tabs: Tables, formatVersion: string, now: int): (Outcome<()>, Tables)
  {
    if MetaData !in tabs then (Threw(SqlError), tabs)
    else
      var t1 := StampSpec(tabs, now);
      if !VariableExists(t1, MetaData, "SSM_MigrationCount") then
        (Ok(()), RefreshSpec(AddMetaSpec(t1, "SSM_MigrationCount", "MigrationInfo", "1", MigrationCountDesc), formatVersion, now))
      else
        match GetVarInTable(t1, "SSM_MigrationCount", MetaData)
        case Threw(e) => (Threw(e), t1)
        case Ok(o) =>
          match ToUInt64(o)
          case Threw(e) => (Threw(e), t1)
          case Ok(n) =>
            var t2 := SetSpec(t1, MetaData, "SSM_MigrationCount", Text(DecimalText.ShowNat(NextCount(n))));
            (Ok(()), RefreshSpec(t2, formatVersion, now))
  }

  /**
   * ImportDataEntry (SQLite.cs:453-610): a metadata record is added or has its value, group and
   * description overwritten; any other record is added or overwritten the same way in its type's
   * table through the typed methods, then its default is written. A record whose bytes are too
   * short throws where BitConverter reads them: before anything changes for the value, after the
   * value is stored for the default.
   */
  function ImportSpec(tabs: Tables, e: DataEntry): (Outcome<()>, Tables)
  {
    var t := e.variableType;
    if t == MetaData then
      var text := Utf8.Decode(e.value);
      if VariableExists(tabs, MetaData, e.name) then
        (Ok(()), EditSpec(SetSpec(tabs, MetaData, e.name, Text(text)), MetaData, e.name, e.group, e.description))
      else
        (if MetaData in tabs then Ok(()) else Threw(SqlError), AddMetaSpec(tabs, e.name, e.group, text, e.description))
    else
      match DecodeValue(t, e.value)
      case Threw(err) => (Threw(err), tabs)
      case Ok(v) =>
        var t1 := if VariableExists(tabs, t, e.name)
          then EditSpec(SetSpec(tabs, t, e.name, ToCell(t, v)), t, e.name, e.group, e.description)
          else AddSpec(tabs, t, e.name, e.group, ToCell(t, v), e.description);
        match DecodeValue(t, e.default)
        case Threw(err) => (Threw(err), t1)
        case Ok(d) => (Ok(()), SetDefaultSpec(t1, t, e.name, ToCell(t, d)))
  }

  /** As written, EditVarInTable's statement has no SET (SQLite.cs:927): it fails to prepare whenever the variable exists. */
  function EditAsWritten(tabs: Tables, t: VarType, name: string, group: string, desc: string): (r: Outcome<bool>)
  {
    if VariableExists(tabs, t, name) then Threw(SqlError) else Ok(false)
  }

  // ---------------------------------------------------------------- well-formedness is kept

  lemma ReplaceRowsOk(tabs: Tables, t: VarType, rows: seq<Row>)
    requires TablesOk(tabs) && t in tabs && SameNames(tabs[t], rows)
    requires forall k :: 0 <= k < |rows| ==> RowOk(t, rows[k])
    ensures TablesOk(tabs[t := rows])
  {
    SameNamesUnique(tabs[t], rows);
  }

  lemma AddSpecOk(tabs: Tables, t: VarType, name: string, group: string, c: Cell, desc: string)
    requires TablesOk(tabs) && RowOk(t, Row(name, group, c, c, desc))
    ensures TablesOk(AddSpec(tabs, t, name, group, c, desc))
  {
    var created := CreateTable(tabs, t);
    if !HasRow(created[t], name) {
      var rows := created[t] + [Row(name, group, c, c, desc)];
      forall i, j | 0 <= i < j < |rows| ensures rows[i].name != rows[j].name {
        if j == |rows| - 1 {
          assert rows[i] == created[t][i];
        } else {
          assert rows[i] == created[t][i] && rows[j] == created[t][j];
        }
      }
    }
  }

  lemma SetSpecOk(tabs: Tables, t: VarType, name: string, c: Cell)
    requires TablesOk(tabs) && ValueCellOk(t, c)
    ensures TablesOk(SetSpec(tabs, t, name, c))
  {
    if VariableExists(tabs, t, name) {
      ReplaceRowsOk(tabs, t, SetValueWhere(tabs[t], name, c));
    }
  }

  lemma EditSpecOk(tabs: Tables, t: VarType, name: string, group: string, desc: string)
    requires TablesOk(tabs)
    ensures TablesOk(EditSpec(tabs, t, name, group, desc))
  {
    if VariableExists(tabs, t, name) {
      ReplaceRowsOk(tabs, t, EditWhere(tabs[t], name, group, desc));
    }
  }

  lemma SetDefaultSpecOk(tabs: Tables, t: VarType, name: string, c: Cell)
    requires TablesOk(tabs) && DefaultCellOk(t, c)
    ensures TablesOk(SetDefaultSpec(tabs, t, name, c))
  {
    if VariableExists(tabs, t, name) {
      ReplaceRowsOk(tabs, t, SetDefaultWhere(tabs[t], name, c));
    }
  }

  lemma DeleteSpecOk(tabs: Tables, t: VarType, name: string)
    requires TablesOk(tabs)
    ensures TablesOk(DeleteSpec(tabs, t, name))
  {
    if VariableExists(tabs, t, name) {
      DeleteWhereRowsOk(t, tabs[t], name);
    }
  }

  lemma AddMetaSpecOk(tabs: Tables, name: string, group: string, value: string, desc: string)
    requires TablesOk(tabs)
    ensures TablesOk(AddMetaSpec(tabs, name, group, value, desc))
  {
    if MetaData in tabs && !HasRow(tabs[MetaData], name) {
      assert AddMetaSpec(tabs, name, group, value, desc) == AddSpec(tabs, MetaData, name, group, Text(value), desc)[MetaData := tabs[MetaData] + [Row(name, group, Text(value), Null, desc)]];
      var rows := tabs[MetaData] + [Row(name, group, Text(value), Null, desc)];
      forall i, j | 0 <= i < j < |rows| ensures rows[i].name != rows[j].name {
        if j == |rows| - 1 {
          assert rows[i] == tabs[MetaData][i];
        } else {
          assert rows[i] == tabs[MetaData][i] && rows[j] == tabs[MetaData][j];
        }
      }
    }
  }

  lemma RefreshSpecOk(tabs: Tables, formatVersion: string, now: int)
    requires TablesOk(tabs)
    ensures TablesOk(RefreshSpec(tabs, formatVersion, now))
  {
    var t1 := SetSpec(tabs, MetaData, "SSM_LastAccessFormatVersion", Text(formatVersion));
    SetSpecOk(tabs, MetaData, "SSM_LastAccessFormatVersion", Text(formatVersion));
    var t2 := SetSpec(t1, MetaData, "SSM_LastLoadedTimestamp", Text(DecimalText.ShowInt(now)));
    SetSpecOk(t1, MetaData, "SSM_LastLoadedTimestamp", Text(DecimalText.ShowInt(now)));
    SetSpecOk(t2, MetaData, "SSM_LastAccessMode", Text("SQLite"));
  }

  lemma MigrationSpecOk(tabs: Tables, formatVersion: string, now: int)
    requires TablesOk(tabs)
    ensures TablesOk(MigrationSpec(tabs, formatVersion, now).1)
  {
    if MetaData in tabs {
      var stamp := DecimalText.ShowInt(now);
      SetSpecOk(tabs, MetaData, "SSM_LastMigration", Text(stamp));
      AddMetaSpecOk(tabs, "SSM_LastMigration", "MigrationInfo", stamp, LastMigrationDesc);
      var t1 := StampSpec(tabs, now);
      var t2 := AddMetaSpec(t1, "SSM_MigrationCount", "MigrationInfo", "1", MigrationCountDesc);
      AddMetaSpecOk(t1, "SSM_MigrationCount", "MigrationInfo", "1", MigrationCountDesc);
      RefreshSpecOk(t2, formatVersion, now);
      match GetVarInTable(t1, "SSM_MigrationCount", MetaData)
      case Threw(_) =>
      case Ok(o) =>
        match ToUInt64(o)
        case Threw(_) =>
        case Ok(n) =>
          var t3 := SetSpec(t1, MetaData, "SSM_MigrationCount", Text(DecimalText.ShowNat(NextCount(n))));
          SetSpecOk(t1, MetaData, "SSM_MigrationCount", Text(DecimalText.ShowNat(NextCount(n))));
          RefreshSpecOk(t3, formatVersion, now);
    }
  }

  lemma ImportSpecOk(tabs: Tables, e: DataEntry)
    requires TablesOk(tabs)
    ensures TablesOk(ImportSpec(tabs, e).1)
  {
    var t := e.variableType;
    if t == MetaData {
      var text := Utf8.Decode(e.value);
      SetSpecOk(tabs, MetaData, e.name, Text(text));
      EditSpecOk(SetSpec(tabs, MetaData, e.name, Text(text)), MetaData, e.name, e.group, e.description);
      AddMetaSpecOk(tabs, e.name, e.group, text, e.description);
    } else {
      match DecodeValue(t, e.value)
      case Threw(_) =>
      case Ok(v) =>
        var c := ToCell(t, v);
        SetSpecOk(tabs, t, e.name, c);
        EditSpecOk(SetSpec(tabs, t, e.name, c), t, e.name, e.group, e.description);
        AddSpecOk(tabs, t, e.name, e.group, c, e.description);
        var t1 := if VariableExists(tabs, t, e.name)
          then EditSpec(SetSpec(tabs, t, e.name, c), t, e.name, e.group, e.description)
          else AddSpec(tabs, t, e.name, e.group, c, e.description);
        match DecodeValue(t, e.default)
        case Threw(_) =>
        case Ok(d) => SetDefaultSpecOk(t1, t, e.name, ToCell(t, d));
    }
  }

  // ---------------------------------------------------------------- what the operations promise

  /** The row of that name (the one SELECT reads first). */
  function RowNamed(tabs: Tables, t: VarType, name: string): Row
    requires VariableExists(tabs, t, name)
  {
    tabs[t][FirstRow(tabs[t], name)]
  }

  /** Nothing but table t changes. */
  predicate OthersUnchanged(a: Tables, b: Tables, t: VarType)
  {
    forall u :: u != t ==> (u in a <==> u in b) && (u in a ==> a[u] == b[u])
  }

  /** SetX rewrites the value of the named row and no other row. */
  lemma SetRowNamed(tabs: Tables, t: VarType, name: string, c: Cell, m: string)
    requires VariableExists(tabs, t, m)
    ensures var r := SetSpec(tabs, t, name, c);
      VariableExists(r, t, m) && OthersUnchanged(tabs, r, t) &&
      RowNamed(r, t, m) == if m == name then RowNamed(tabs, t, m).(value := c) else RowNamed(tabs, t, m)
  {
    if VariableExists(tabs, t, name) {
      SameNamesFirstRow(tabs[t], SetSpec(tabs, t, name, c)[t], m);
    }
  }

  /** EditX rewrites the group and description of the named row and no other row. */
  lemma EditRowNamed(tabs: Tables, t: VarType, name: string, group: string, desc: string, m: string)
    requires VariableExists(tabs, t, m)
    ensures var r := EditSpec(tabs, t, name, group, desc);
      VariableExists(r, t, m) && OthersUnchanged(tabs, r, t) &&
      RowNamed(r, t, m) == if m == name then RowNamed(tabs, t, m).(group := group, desc := desc) else RowNamed(tabs, t, m)
  {
    if VariableExists(tabs, t, name) {
      SameNamesFirstRow(tabs[t], EditSpec(tabs, t, name, group, desc)[t], m);
    }
  }

  /** EditVarDefaultInTable rewrites the default of the named row and no other row. */
  lemma SetDefaultRowNamed(tabs: Tables, t: VarType, name: string, c: Cell, m: string)
    requires VariableExists(tabs, t, m)
    ensures var r := SetDefaultSpec(tabs, t, name, c);
      VariableExists(r, t, m) && OthersUnchanged(tabs, r, t) &&
      RowNamed(r, t, m) == if m == name then RowNamed(tabs, t, m).(default := c) else RowNamed(tabs, t, m)
  {
    if VariableExists(tabs, t, name) {
      SameNamesFirstRow(tabs[t], SetDefaultSpec(tabs, t, name, c)[t], m);
    }
  }

  /** AddX of a new name makes exactly that row the variable; the rows already there stay. */
  lemma AddRowNamed(tabs: Tables, t: VarType, name: string, group: string, c: Cell, desc: string, m: string)
    requires VariableExists(tabs, t, m) || (m == name && !VariableExists(tabs, t, name))
    ensures var r := AddSpec(tabs, t, name, group, c, desc);
      VariableExists(r, t, m) && OthersUnchanged(tabs, r, t) &&
      RowNamed(r, t, m) == if VariableExists(tabs, t, m) then RowNamed(tabs, t, m) else Row(name, group, c, c, desc)
  {
    var created := CreateTable(tabs, t);
    var r := AddSpec(tabs, t, name, group, c, desc);
    assert OthersUnchanged(tabs, r, t);
    if !HasRow(created[t], name) {
      var row := Row(name, group, c, c, desc);
      assert r[t] == created[t] + [row];
      if VariableExists(tabs, t, m) {
        AppendFirstRow(created[t], row, m);
        assert RowNamed(r, t, m) == RowNamed(tabs, t, m);
      } else {
        AppendNewRow(created[t], row);
        assert RowNamed(r, t, m) == row;
      }
    } else {
      assert r == created && created[t] == tabs[t];
    }
  }

  /** AddMetaData of a new name appends its row; the rows already there stay. */
  lemma AddMetaRowNamed(tabs: Tables, name: string, group: string, value: string, desc: string, m: string)
    requires MetaData in tabs
    requires VariableExists(tabs, MetaData, m) || (m == name && !VariableExists(tabs, MetaData, name))
    ensures var r := AddMetaSpec(tabs, name, group, value, desc);
      VariableExists(r, MetaData, m) && OthersUnchanged(tabs, r, MetaData) &&
      RowNamed(r, MetaData, m) == if VariableExists(tabs, MetaData, m) then RowNamed(tabs, MetaData, m) else Row(name, group, Text(value), Null, desc)
  {
    if !HasRow(tabs[MetaData], name) {
      if VariableExists(tabs, MetaData, m) {
        AppendFirstRow(tabs[MetaData], Row(name, group, Text(value), Null, desc), m);
      } else {
        AppendNewRow(tabs[MetaData], Row(name, group, Text(value), Null, desc));
      }
    }
  }

  /** Refreshing the three last-access keys leaves every other metadata row as it was. */
  lemma RefreshRowNamed(tabs: Tables, formatVersion: string, now: int, m: string)
    requires VariableExists(tabs, MetaData, m) && !IsRefreshedKey(m)
    ensures var r := RefreshSpec(tabs, formatVersion, now);
      VariableExists(r, MetaData, m) && OthersUnchanged(tabs, r, MetaData) && RowNamed(r, MetaData, m) == RowNamed(tabs, MetaData, m)
  {
    var t1 := SetSpec(tabs, MetaData, "SSM_LastAccessFormatVersion", Text(formatVersion));
    SetRowNamed(tabs, MetaData, "SSM_LastAccessFormatVersion", Text(formatVersion), m);
    var t2 := SetSpec(t1, MetaData, "SSM_LastLoadedTimestamp", Text(DecimalText.ShowInt(now)));
    SetRowNamed(t1, MetaData, "SSM_LastLoadedTimestamp", Text(DecimalText.ShowInt(now)), m);
    SetRowNamed(t2, MetaData, "SSM_LastAccessMode", Text("SQLite"), m);
  }

  /**
   * AddX of a new name appends one row holding the value as value and default, after which GetX
   * reads the value back; no other table and no other row changes.
   */
  lemma AddThenGet(tabs: Tables, t: VarType, name: string, group: string, v: Value, desc: string,
                   serialize: seq<byte> -> seq<byte>)
    requires t != MetaData && Fits(t, v) && !VariableExists(tabs, t, name)
    ensures var r := AddSpec(tabs, t, name, group, ToCell(t, v), desc);
      VariableExists(r, t, name) &&
      r[t] == (if t in tabs then tabs[t] else []) + [Row(name, group, ToCell(t, v), ToCell(t, v), desc)] &&
      OthersUnchanged(tabs, r, t) &&
      GetValue(r, t, name, serialize) == Ok(ReadBack(t, v, serialize))
  {
    var r := AddSpec(tabs, t, name, group, ToCell(t, v), desc);
    AddRowNamed(tabs, t, name, group, ToCell(t, v), desc, name);
    GetValueOfCell(r, t, name, v, serialize);
  }

  /** AddX of a name the table already has changes nothing. */
  lemma AddRefusesTaken(tabs: Tables, t: VarType, name: string, group: string, c: Cell, desc: string)
    requires VariableExists(tabs, t, name)
    ensures AddSpec(tabs, t, name, group, c, desc) == tabs
  {
    assert CreateTable(tabs, t) == tabs;
  }

  /** SetX of an existing variable: GetX then reads the new value; group, description and default stay. */
  lemma SetThenGet(tabs: Tables, t: VarType, name: string, v: Value, serialize: seq<byte> -> seq<byte>)
    requires t != MetaData && Fits(t, v) && VariableExists(tabs, t, name)
    ensures var r := SetSpec(tabs, t, name, ToCell(t, v));
      VariableExists(r, t, name) && OthersUnchanged(tabs, r, t) &&
      RowNamed(r, t, name) == RowNamed(tabs, t, name).(value := ToCell(t, v)) &&
      GetValue(r, t, name, serialize) == Ok(ReadBack(t, v, serialize))
  {
    SetRowNamed(tabs, t, name, ToCell(t, v), name);
    GetValueOfCell(SetSpec(tabs, t, name, ToCell(t, v)), t, name, v, serialize);
  }

  /** EditX of an existing variable rewrites its group and description and nothing else, so GetX is unchanged. */
  lemma EditKeepsValue(tabs: Tables, t: VarType, name: string, group: string, desc: string,
                       serialize: seq<byte> -> seq<byte>)
    requires t != MetaData && VariableExists(tabs, t, name)
    ensures var r := EditSpec(tabs, t, name, group, desc);
      VariableExists(r, t, name) && OthersUnchanged(tabs, r, t) &&
      RowNamed(r, t, name) == RowNamed(tabs, t, name).(group := group, desc := desc) &&
      GetValue(r, t, name, serialize) == GetValue(tabs, t, name, serialize)
  {
    EditRowNamed(tabs, t, name, group, desc, name);
  }

  /** As written, EditX throws for every variable that exists and returns false for every other. */
  lemma EditAsWrittenNeverEdits(tabs: Tables, t: VarType, name: string, group: string, desc: string)
    ensures EditAsWritten(tabs, t, name, group, desc) != Ok(true)
    ensures VariableExists(tabs, t, name) ==> EditAsWritten(tabs, t, name, group, desc) == Threw(SqlError)
  {
  }

  /** DeleteX of an existing variable drops exactly its row; GetX then falls back to the type's zero. */
  lemma DeleteThenGet(tabs: Tables, t: VarType, name: string, serialize: seq<byte> -> seq<byte>)
    requires TablesOk(tabs) && t != MetaData && VariableExists(tabs, t, name)
    ensures var r := DeleteSpec(tabs, t, name);
      !VariableExists(r, t, name) && OthersUnchanged(tabs, r, t) &&
      r[t] == tabs[t][..FirstRow(tabs[t], name)] + tabs[t][FirstRow(tabs[t], name) + 1..] &&
      GetValue(r, t, name, serialize) == if t == ByteArray then Threw(ArgumentError) else Ok(ZeroValue(t))
  {
    DeleteWhereUnique(tabs[t], name);
    DeleteWhereRowsOk(t, tabs[t], name);
  }

  /** The seed rows are well typed, with eight distinct names, text values and null defaults. */
  ghost predicate SeedRowsShaped(rows: seq<Row>)
  {
    |rows| == 8 && RowsOk(MetaData, rows) &&
    forall k :: 0 <= k < 8 ==> rows[k].value.Text? && rows[k].default == Null
  }

  lemma SeedRowsAreShaped(appVersion: string, formatVersion: string, now: int)
    ensures SeedRowsShaped(SeedRows(appVersion, formatVersion, now))
  {
    NewFileNamesDistinct(appVersion, formatVersion, now, "SQLite");
  }

  /** A new file starts with exactly `_MetaData` and its eight rows, whatever the versions and the clock. */
  lemma NewFileSeeded(appVersion: string, formatVersion: string, now: int)
    ensures var r := OpenSpec(None, appVersion, formatVersion, now);
      r.Keys == {MetaData} && |r[MetaData]| == 8 && TablesOk(r) &&
      VariableExists(r, MetaData, "SSM_CreationMode") &&
      RowNamed(r, MetaData, "SSM_CreationMode").value == Text("SQLite") &&
      VariableExists(r, MetaData, "SSM_CreationTimestamp") &&
      RowNamed(r, MetaData, "SSM_CreationTimestamp").value == Text(DecimalText.ShowInt(now))
  {
    var rows := SeedRows(appVersion, formatVersion, now);
    SeedRowsAreShaped(appVersion, formatVersion, now);
    SeededRowNamed(rows, 6);
    SeededRowNamed(rows, 4);
    var items := NewFileMeta(appVersion, formatVersion, now, "SQLite");
    CreationItems(appVersion, formatVersion, now, "SQLite");
    assert rows[6].name == items[6].name && rows[6].value == Text(items[6].value);
    assert rows[4].name == items[4].name && rows[4].value == Text(items[4].value);
  }

  /** In a table of seed-shaped rows, each row's name finds that row. */
  lemma SeededRowNamed(rows: seq<Row>, k: nat)
    requires SeedRowsShaped(rows) && k < 8
    ensures var r := map[MetaData := rows];
      r.Keys == {MetaData} && TablesOk(r) &&
      VariableExists(r, MetaData, rows[k].name) && RowNamed(r, MetaData, rows[k].name) == rows[k]
  {
    UniqueFirstRow(rows, rows[k].name, k);
  }

  /** Each AddMetaData of AddNewSsmMetaData finds its name new and appends the k-th seed row. */
  lemma SeedStep(rows: seq<Row>, k: nat)
    requires SeedRowsShaped(rows) && k < 8
    ensures AddMetaSpec(map[MetaData := rows[..k]], rows[k].name, rows[k].group, rows[k].value.s, rows[k].desc) == map[MetaData := rows[..k + 1]]
    ensures AddMetaOutcome(map[MetaData := rows[..k]], rows[k].name) == Ok(true)
  {
    assert !HasRow(rows[..k], rows[k].name);
    assert rows[..k] + [Row(rows[k].name, rows[k].group, Text(rows[k].value.s), Null, rows[k].desc)] == rows[..k + 1];
  }

  /** Reopening an existing file rewrites three metadata values and leaves every other row and table as it was. */
  lemma RefreshTouchesThreeKeys(tabs: Tables, formatVersion: string, now: int)
    ensures var r := RefreshSpec(tabs, formatVersion, now);
      OthersUnchanged(tabs, r, MetaData) && (MetaData in r <==> MetaData in tabs) &&
      (MetaData in tabs ==> (SameNames(tabs[MetaData], r[MetaData]) &&
        forall k :: 0 <= k < |tabs[MetaData]| ==>
          var n := tabs[MetaData][k].name;
          if n == "SSM_LastAccessFormatVersion" then r[MetaData][k] == tabs[MetaData][k].(value := Text(formatVersion))
          else if n == "SSM_LastLoadedTimestamp" then r[MetaData][k] == tabs[MetaData][k].(value := Text(DecimalText.ShowInt(now)))
          else if n == "SSM_LastAccessMode" then r[MetaData][k] == tabs[MetaData][k].(value := Text("SQLite"))
          else r[MetaData][k] == tabs[MetaData][k]))
  {
    RefreshKeysDistinct();
    ThreeSetsEffect(tabs, "SSM_LastAccessFormatVersion", "SSM_LastLoadedTimestamp", "SSM_LastAccessMode",
      Text(formatVersion), Text(DecimalText.ShowInt(now)), Text("SQLite"));
  }

  /** The three keys Open refreshes are distinct. */
  lemma RefreshKeysDistinct()
    ensures "SSM_LastAccessFormatVersion" != "SSM_LastLoadedTimestamp"
    ensures "SSM_LastAccessFormatVersion" != "SSM_LastAccessMode"
    ensures "SSM_LastLoadedTimestamp" != "SSM_LastAccessMode"
  {
    assert "SSM_LastAccessFormatVersion"[8] != "SSM_LastLoadedTimestamp"[8];
    assert "SSM_LastAccessFormatVersion"[14] != "SSM_LastAccessMode"[14];
    assert "SSM_LastLoadedTimestamp"[8] != "SSM_LastAccessMode"[8];
  }

  /** Three value rewrites of distinct metadata keys, one after the other, act row by row. */
  lemma ThreeSetsEffect(tabs: Tables, k1: string, k2: string, k3: string, c1: Cell, c2: Cell, c3: Cell)
    requires k1 != k2 && k1 != k3 && k2 != k3
    ensures var r := SetSpec(SetSpec(SetSpec(tabs, MetaData, k1, c1), MetaData, k2, c2), MetaData, k3, c3);
      OthersUnchanged(tabs, r, MetaData) && (MetaData in r <==> MetaData in tabs) &&
      (MetaData in tabs ==> (SameNames(tabs[MetaData], r[MetaData]) &&
        forall k :: 0 <= k < |tabs[MetaData]| ==>
          var n := tabs[MetaData][k].name;
          if n == k1 then r[MetaData][k] == tabs[MetaData][k].(value := c1)
          else if n == k2 then r[MetaData][k] == tabs[MetaData][k].(value := c2)
          else if n == k3 then r[MetaData][k] == tabs[MetaData][k].(value := c3)
          else r[MetaData][k] == tabs[MetaData][k]))
  {
    var t1 := SetSpec(tabs, MetaData, k1, c1);
    var t2 := SetSpec(t1, MetaData, k2, c2);
    OneSetEffect(tabs, k1, c1);
    OneSetEffect(t1, k2, c2);
    OneSetEffect(t2, k3, c3);
  }

  /** One value rewrite of a metadata key acts row by row. */
  lemma OneSetEffect(tabs: Tables, name: string, c: Cell)
    ensures var r := SetSpec(tabs, MetaData, name, c);
      OthersUnchanged(tabs, r, MetaData) && (MetaData in r <==> MetaData in tabs) &&
      (MetaData in tabs ==> (SameNames(tabs[MetaData], r[MetaData]) &&
        forall k :: 0 <= k < |tabs[MetaData]| ==>
          r[MetaData][k] == if tabs[MetaData][k].name == name then tabs[MetaData][k].(value := c) else tabs[MetaData][k]))
  {
    if MetaData in tabs && !VariableExists(tabs, MetaData, name) {
      assert forall k :: 0 <= k < |tabs[MetaData]| ==> tabs[MetaData][k].name != name;
    }
  }

  /** The stamp step of UpdateMigrationStatus: SSM_LastMigration holds the clock, every other metadata row stays. */
  lemma StampRowNamed(tabs: Tables, now: int, m: string)
    requires MetaData in tabs && (VariableExists(tabs, MetaData, m) || m == "SSM_LastMigration")
    ensures var stamp := DecimalText.ShowInt(now);
      var t1 := StampSpec(tabs, now);
      VariableExists(t1, MetaData, m) && OthersUnchanged(tabs, t1, MetaData) &&
      (m == "SSM_LastMigration" ==> RowNamed(t1, MetaData, m).value == Text(stamp)) &&
      (m != "SSM_LastMigration" ==> RowNamed(t1, MetaData, m) == RowNamed(tabs, MetaData, m))
  {
    var stamp := DecimalText.ShowInt(now);
    if VariableExists(tabs, MetaData, "SSM_LastMigration") {
      SetRowNamed(tabs, MetaData, "SSM_LastMigration", Text(stamp), m);
    } else {
      AddMetaRowNamed(tabs, "SSM_LastMigration", "MigrationInfo", stamp, LastMigrationDesc, m);
    }
  }

  /** The two migration keys differ from each other and from the keys Open refreshes. */
  lemma MigrationKeys()
    ensures !IsRefreshedKey("SSM_MigrationCount") && !IsRefreshedKey("SSM_LastMigration")
    ensures "SSM_MigrationCount" != "SSM_LastMigration"
  {
    assert "SSM_MigrationCount"[4] != "SSM_LastAccessMode"[4];
    assert "SSM_LastMigration"[8] != "SSM_LastAccessMode"[8];
    assert "SSM_LastMigration"[8] != "SSM_LastLoadedTimestamp"[8];
  }

  /** GetVarInTable of a counter that reads n converts back to n. */
  lemma CounterReads(tabs: Tables, n: nat)
    requires n < UInt64Bound && VariableExists(tabs, MetaData, "SSM_MigrationCount")
    requires RowNamed(tabs, MetaData, "SSM_MigrationCount").value == Text(DecimalText.ShowNat(n))
    ensures GetVarInTable(tabs, "SSM_MigrationCount", MetaData) == Ok(CellObj(Text(DecimalText.ShowNat(n))))
    ensures ToUInt64(CellObj(Text(DecimalText.ShowNat(n)))) == Ok(n)
  {
    DecimalText.ParseShowInt(n, 0, UInt64Bound - 1);
    assert DecimalText.ShowInt(n) == DecimalText.ShowNat(n);
  }

  /**
   * A migration of a file whose counter reads n leaves the counter at n + 1 (wrapping at 2^64)
   * and the last-migration stamp at the clock's value.
   */
  lemma MigrationCounts(tabs: Tables, formatVersion: string, now: int, n: nat)
    requires n < UInt64Bound
    requires VariableExists(tabs, MetaData, "SSM_MigrationCount")
    requires RowNamed(tabs, MetaData, "SSM_MigrationCount").value == Text(DecimalText.ShowNat(n))
    ensures var (out, r) := MigrationSpec(tabs, formatVersion, now);
      out == Ok(()) &&
      VariableExists(r, MetaData, "SSM_MigrationCount") &&
      RowNamed(r, MetaData, "SSM_MigrationCount").value == Text(DecimalText.ShowNat(NextCount(n))) &&
      VariableExists(r, MetaData, "SSM_LastMigration") &&
      RowNamed(r, MetaData, "SSM_LastMigration").value == Text(DecimalText.ShowInt(now))
  {
    var stamp := DecimalText.ShowInt(now);
    var count := "SSM_MigrationCount";
    var last := "SSM_LastMigration";
    MigrationKeys();
    var t1 := StampSpec(tabs, now);
    StampRowNamed(tabs, now, count);
    StampRowNamed(tabs, now, last);
    CounterReads(t1, n);
    var next := Text(DecimalText.ShowNat(NextCount(n)));
    var t2 := SetSpec(t1, MetaData, count, next);
    SetRowNamed(t1, MetaData, count, next, count);
    SetRowNamed(t1, MetaData, count, next, last);
    assert MigrationSpec(tabs, formatVersion, now) == (Ok(()), RefreshSpec(t2, formatVersion, now));
    RefreshRowNamed(t2, formatVersion, now, count);
    RefreshRowNamed(t2, formatVersion, now, last);
  }

  /** The first migration of a file without counter writes the counter "1". */
  lemma FirstMigrationCountsOne(tabs: Tables, formatVersion: string, now: int)
    requires MetaData in tabs && !VariableExists(tabs, MetaData, "SSM_MigrationCount")
    ensures var (out, r) := MigrationSpec(tabs, formatVersion, now);
      out == Ok(()) && VariableExists(r, MetaData, "SSM_MigrationCount") &&
      RowNamed(r, MetaData, "SSM_MigrationCount").value == Text("1")
  {
    var stamp := DecimalText.ShowInt(now);
    var count := "SSM_MigrationCount";
    var last := "SSM_LastMigration";
    MigrationKeys();
    var t1 := StampSpec(tabs, now);
    StampRowNamed(tabs, now, last);
    SameNamesHasRow(tabs[MetaData], SetValueWhere(tabs[MetaData], last, Text(stamp)), count);
    assert !VariableExists(t1, MetaData, count);
    var t2 := AddMetaSpec(t1, count, "MigrationInfo", "1", MigrationCountDesc);
    AddMetaRowNamed(t1, count, "MigrationInfo", "1", MigrationCountDesc, count);
    RefreshRowNamed(t2, formatVersion, now, count);
    var r := RefreshSpec(t2, formatVersion, now);
    assert MigrationSpec(tabs, formatVersion, now) == (Ok(()), r);
    assert RowNamed(r, MetaData, count) == Row(count, "MigrationInfo", Text("1"), Null, MigrationCountDesc);
  }

  /** A migration of a file without `_MetaData` throws at its first INSERT and changes nothing. */
  lemma MigrationNeedsMetaTable(tabs: Tables, formatVersion: string, now: int)
    requires MetaData !in tabs
    ensures MigrationSpec(tabs, formatVersion, now) == (Threw(SqlError), tabs)
  {
  }

  /**
   * Importing a record whose value and default decode leaves the variable in its type's table
   * with the record's value, default, group and description, and GetX then reads the value.
   */
  lemma ImportThenGet(tabs: Tables, e: DataEntry, serialize: seq<byte> -> seq<byte>)
    requires e.variableType != MetaData
    requires DecodeValue(e.variableType, e.value).Ok? && DecodeValue(e.variableType, e.default).Ok?
    ensures var t := e.variableType;
      var v := DecodeValue(t, e.value).value;
      var d := DecodeValue(t, e.default).value;
      var (out, r) := ImportSpec(tabs, e);
      out == Ok(()) && VariableExists(r, t, e.name) && OthersUnchanged(tabs, r, t) &&
      RowNamed(r, t, e.name) == Row(e.name, e.group, ToCell(t, v), ToCell(t, d), e.description) &&
      GetValue(r, t, e.name, serialize) == Ok(ReadBack(t, v, serialize))
  {
    var t := e.variableType;
    var v := DecodeValue(t, e.value).value;
    var d := DecodeValue(t, e.default).value;
    var c := ToCell(t, v);
    var t1 := if VariableExists(tabs, t, e.name)
      then EditSpec(SetSpec(tabs, t, e.name, c), t, e.name, e.group, e.description)
      else AddSpec(tabs, t, e.name, e.group, c, e.description);
    if VariableExists(tabs, t, e.name) {
      SetRowNamed(tabs, t, e.name, c, e.name);
      EditRowNamed(SetSpec(tabs, t, e.name, c), t, e.name, e.group, e.description, e.name);
    } else {
      AddRowNamed(tabs, t, e.name, e.group, c, e.description, e.name);
    }
    assert VariableExists(t1, t, e.name) && OthersUnchanged(tabs, t1, t);
    assert RowNamed(t1, t, e.name).(default := ToCell(t, d)) == Row(e.name, e.group, c, ToCell(t, d), e.description);
    var r := SetDefaultSpec(t1, t, e.name, ToCell(t, d));
    SetDefaultRowNamed(t1, t, e.name, ToCell(t, d), e.name);
    GetValueOfCell(r, t, e.name, v, serialize);
  }

  /** Importing a record whose value bytes are too short throws and changes nothing. */
  lemma ImportShortValue(tabs: Tables, e: DataEntry)
    requires e.variableType != MetaData && |e.value| < Width(e.variableType)
    ensures ImportSpec(tabs, e) == (Threw(ArgumentError), tabs)
  {
  }

  /**
   * What a GetAll pass exports, ImportDataEntry reads back: importing the record of a row into a
   * table without that name stores the row itself (the byte-array table aside, whose export goes
   * through BinaryFormatter).
   */
  lemma ExportImportRow(tabs: Tables, t: VarType, row: Row, serialize: seq<byte> -> seq<byte>)
    requires t != MetaData && t != ByteArray && !VariableExists(tabs, t, row.name)
    requires ValueCellOk(t, row.value) && ValueCellOk(t, row.default)
    ensures RecordOf(t, row, serialize).Ok?
    ensures var (out, r) := ImportSpec(tabs, RecordOf(t, row, serialize).value);
      out == Ok(()) && VariableExists(r, t, row.name) && RowNamed(r, t, row.name) == row
  {
    var e := RecordOf(t, row, serialize).value;
    CellRoundTrip(t, row.value, serialize);
    CellRoundTrip(t, row.default, serialize);
    ImportThenGet(tabs, e, serialize);
  }

  /** The bytes a GetAll pass makes of a well-typed cell decode to a value stored as that same cell. */
  lemma CellRoundTrip(t: VarType, c: Cell, serialize: seq<byte> -> seq<byte>)
    requires t != MetaData && t != ByteArray && ValueCellOk(t, c)
    ensures CellBytes(t, c, serialize).Ok?
    ensures DecodeValue(t, CellBytes(t, c, serialize).value).Ok?
    ensures ToCell(t, DecodeValue(t, CellBytes(t, c, serialize).value).value) == c
  {
    match t
    case Int16 | Int32 | Int64 => ReadSignedOfEncoding(c.i, Width(t));
    case UInt16 | UInt32 | UInt64 =>
      ToFromLittleEndian(c.b);
      ReadUnsignedOfEncoding(FromLittleEndian(c.b), Width(t), []);
      assert ToLittleEndian(FromLittleEndian(c.b), Width(t)) + [] == c.b;
    case Single | Double => assert c.bits[..Width(t)] == c.bits;
    case String => Utf8.DecodeEncode(c.s);
    case Boolean =>
  }

  /**
   * As written, ImportDataEntry stores an unsigned default as its number (SQLite.cs:517, 530, 543);
   * the `(byte[])` cast of GetAllUInt16/32/64 then fails on that row.
   */
  lemma NativeUnsignedDefaultUnreadable(t: VarType, row: Row, d: Value, serialize: seq<byte> -> seq<byte>)
    requires IsUnsigned(t) && Fits(t, d) && ValueCellOk(t, row.value) && row.default == NativeCell(t, d)
    ensures RecordOf(t, row, serialize) == Threw(InvalidCast)
  {
  }

  // ---------------------------------------------------------------- the backend

  /**
   * The state of `_dbConnection`: null until Open assigns it, open after Open, closed after
   * Close. A command on a null connection or a closed one throws InvalidOperationException.
   */
  datatype Connection = NoConnection | Connected | Disconnected

  /** The SQLite backend: one connection to a database file, whose tables are `tables`. */
  class SQLiteStore {
    /** The database's tables, by type. */
    var tables: Tables
    var connection: Connection
    /** BinaryFormatter serialization of a byte array (ObjectToByteArray), used when byte arrays are read. */
    const serialize: seq<byte> -> seq<byte>

    ghost predicate Valid()
      reads this
    {
      TablesOk(tables)
    }

    constructor (serialize: seq<byte> -> seq<byte>)
      ensures Valid() && tables == map[] && connection == NoConnection && this.serialize == serialize
    {
      tables := map[];
      connection := NoConnection;
      this.serialize := serialize;
    }

    /**
     * Open: `existing` is the database already at the path, if any; a new one is created with the
     * metadata table and its eight rows, an existing one gets three of those rows refreshed.
     */
    method Open(existing: Option<Tables>, appVersion: string, formatVersion: string, now: int)
      requires existing.Some? ==> TablesOk(existing.value)
      modifies this
      ensures Valid() && connection == Connected
      ensures tables == OpenSpec(existing, appVersion, formatVersion, now)
    {
      connection := Connected;
      match existing {
        case None =>
          tables := map[];
          CreateMetaTable();
          AddNewSsmMetaData(appVersion, formatVersion, now);
        case Some(tabs) =>
          tables := tabs;
          ExistingSsmMetaData(formatVersion, now);
      }
    }

    method CreateMetaTable()
      requires Valid()
      modifies this
      ensures Valid() && connection == old(connection)
      ensures tables == CreateTable(old(tables), MetaData)
    {
      if MetaData !in tables {
        tables := tables[MetaData := []];
      }
    }

    /** The eight AddMetaData calls, with the arguments SeedRows lists, in its order. */
    method AddNewSsmMetaData(appVersion: string, formatVersion: string, now: int)
      requires tables == map[MetaData := []]
      modifies this
      ensures Valid() && connection == old(connection)
      ensures tables == map[MetaData := SeedRows(appVersion, formatVersion, now)]
    {
      var rows := SeedRows(appVersion, formatVersion, now);
      SeedRowsAreShaped(appVersion, formatVersion, now);
      SeedAllRows(rows);
    }

    /** AddNewSsmMetaData on any rows of the seed's shape: they are appended one by one, in order. */
    method SeedAllRows(rows: seq<Row>)
      requires SeedRowsShaped(rows) && tables == map[MetaData := []]
      modifies this
      ensures Valid() && connection == old(connection)
      ensures tables == map[MetaData := rows]
    {
      assert rows[..0] == [];
      SeedFourRows(rows, 0);
      SeedFourRows(rows, 4);
      assert rows[..8] == rows;
    }

    /** Four consecutive AddMetaData calls of AddNewSsmMetaData, from the k-th seed row on. */
    method SeedFourRows(rows: seq<Row>, k: nat)
      requires SeedRowsShaped(rows) && k + 4 <= 8 && Valid()
      requires tables == map[MetaData := rows[..k]]
      modifies this
      ensures Valid() && connection == old(connection)
      ensures tables == map[MetaData := rows[..k + 4]]
    {
      SeedRow(rows, k);
      SeedRow(rows, k + 1);
      SeedRow(rows, k + 2);
      SeedRow(rows, k + 3);
    }

    /** The k-th AddMetaData call of AddNewSsmMetaData appends the k-th seed row. */
    method SeedRow(rows: seq<Row>, k: nat)
      requires SeedRowsShaped(rows) && k < 8 && Valid()
      requires tables == map[MetaData := rows[..k]]
      modifies this
      ensures Valid() && connection == old(connection)
      ensures tables == map[MetaData := rows[..k + 1]]
    {
      SeedStep(rows, k);
      var _ := AddMetaData(rows[k].name, rows[k].group, rows[k].value.s, rows[k].desc);
    }

    method ExistingSsmMetaData(formatVersion: string, now: int)
      requires Valid()
      modifies this
      ensures Valid() && connection == old(connection)
      ensures tables == RefreshSpec(old(tables), formatVersion, now)
    {
      var _ := SetMetaData("SSM_LastAccessFormatVersion", formatVersion);
      var _ := SetMetaData("SSM_LastLoadedTimestamp", DecimalText.ShowInt(now));
      var _ := SetMetaData("SSM_LastAccessMode", "SQLite");
    }

    /**
     * Close: the connection ends and the tables stay in the file as they are; closing a closed
     * connection does nothing, and Close before Open dereferences the null connection.
     */
    method Close() returns (r: Outcome<()>)
      modifies this
      ensures tables == old(tables)
      ensures old(connection) == NoConnection ==> r == Threw(NullReference) && connection == NoConnection
      ensures old(connection) != NoConnection ==> r == Ok(()) && connection == Disconnected
    {
      if connection == NoConnection {
        return Threw(NullReference);
      }
      connection := Disconnected;
      return Ok(());
    }

    /** UpdateMigrationStatus: the stamp and the count of MigrationSpec, through the open connection. */
    method UpdateMigrationStatus(formatVersion: string, now: int) returns (r: Outcome<()>)
      requires Valid()
      modifies this
      ensures Valid() && connection == old(connection)
      ensures connection != Connected ==> r == Threw(InvalidOperation) && tables == old(tables)
      ensures connection == Connected ==> (r, tables) == MigrationSpec(old(tables), formatVersion, now)
    {
      if connection != Connected {
        return Threw(InvalidOperation);
      }
      MigrationSpecOk(tables, formatVersion, now);
      var stamp := DecimalText.ShowInt(now);
      var added := AddMetaData("SSM_LastMigration", "MigrationInfo", stamp, LastMigrationDesc);
      if added.Threw? {
        return Threw(added.error);
      }
      if !added.value {
        var _ := SetMetaData("SSM_LastMigration", stamp);
      }
      var addedCount := AddMetaData("SSM_MigrationCount", "MigrationInfo", "1", MigrationCountDesc);
      assert addedCount.Ok?;
      if !addedCount.value {
        var o := GetVarInTable(tables, "SSM_MigrationCount", MetaData);
        if o.Threw? {
          return Threw(o.error);
        }
        var count := ToUInt64(o.value);
        if count.Threw? {
          return Threw(count.error);
        }
        var _ := SetMetaData("SSM_MigrationCount", DecimalText.ShowNat(NextCount(count.value)));
      }
      ExistingSsmMetaData(formatVersion, now);
      return Ok(());
    }

    // ------------------------------------------------------------ the typed operations

    /**
     * AddInt16 ... AddBoolean: false, and no change, when the name is taken in that type's table.
     * Without an open connection the first command (CREATE TABLE) throws and nothing changes.
     */
    method Add(t: VarType, name: string, v: Value, desc: string, group: string) returns (r: Outcome<bool>)
      requires Valid() && t != MetaData && Fits(t, v)
      modifies this
      ensures Valid() && connection == old(connection)
      ensures connection != Connected ==> r == Threw(InvalidOperation) && tables == old(tables)
      ensures connection == Connected ==> r == Ok(!VariableExists(old(tables), t, name))
      ensures connection == Connected ==> tables == AddSpec(old(tables), t, name, group, ToCell(t, v), desc)
    {
      if connection != Connected {
        return Threw(InvalidOperation);
      }
      CreateVarTable(t);
      var added := AddVarToTable(name, ToCell(t, v), desc, group, t);
      return Ok(added);
    }

    /** CreateInt16Table ... CreateBooleanTable. */
    method CreateVarTable(t: VarType)
      requires Valid()
      modifies this
      ensures Valid() && connection == old(connection)
      ensures tables == CreateTable(old(tables), t)
    {
      if t !in tables {
        tables := tables[t := []];
      }
    }

    method AddVarToTable(name: string, c: Cell, desc: string, group: string, t: VarType) returns (added: bool)
      requires Valid() && t in tables && RowOk(t, Row(name, group, c, c, desc))
      modifies this
      ensures Valid() && connection == old(connection)
      ensures added <==> !VariableExists(old(tables), t, name)
      ensures tables == AddSpec(old(tables), t, name, group, c, desc)
    {
      AddSpecOk(tables, t, name, group, c, desc);
      if !VariableExists(tables, t, name) {
        tables := tables[t := tables[t] + [Row(name, group, c, c, desc)]];
        return true;
      }
      return false;
    }

    /** SetInt16 ... SetBoolean; without an open connection, the existence query throws. */
    method Set(t: VarType, name: string, v: Value) returns (r: Outcome<bool>)
      requires Valid() && t != MetaData && Fits(t, v)
      modifies this
      ensures Valid() && connection == old(connection)
      ensures connection != Connected ==> r == Threw(InvalidOperation) && tables == old(tables)
      ensures connection == Connected ==> r == Ok(VariableExists(old(tables), t, name))
      ensures connection == Connected ==> tables == SetSpec(old(tables), t, name, ToCell(t, v))
    {
      if connection != Connected {
        return Threw(InvalidOperation);
      }
      var done := SetVarInTable(name, ToCell(t, v), t);
      return Ok(done);
    }

    method SetVarInTable(name: string, c: Cell, t: VarType) returns (done: bool)
      requires Valid() && ValueCellOk(t, c)
      modifies this
      ensures Valid() && connection == old(connection)
      ensures done <==> VariableExists(old(tables), t, name)
      ensures tables == SetSpec(old(tables), t, name, c)
    {
      SetSpecOk(tables, t, name, c);
      if VariableExists(tables, t, name) {
        tables := tables[t := SetValueWhere(tables[t], name, c)];
        return true;
      }
      return false;
    }

    /**
     * EditInt16 ... EditBoolean, with the UPDATE statement written as evidently intended;
     * without an open connection, the existence query throws.
     */
    method Edit(t: VarType, name: string, desc: string, group: string) returns (r: Outcome<bool>)
      requires Valid() && t != MetaData
      modifies this
      ensures Valid() && connection == old(connection)
      ensures connection != Connected ==> r == Threw(InvalidOperation) && tables == old(tables)
      ensures connection == Connected ==> r == Ok(VariableExists(old(tables), t, name))
      ensures connection == Connected ==> tables == EditSpec(old(tables), t, name, group, desc)
    {
      if connection != Connected {
        return Threw(InvalidOperation);
      }
      var done := EditVarInTable(name, desc, group, t);
      return Ok(done);
    }

    method EditVarInTable(name: string, desc: string, group: string, t: VarType) returns (done: bool)
      requires Valid()
      modifies this
      ensures Valid() && connection == old(connection)
      ensures done <==> VariableExists(old(tables), t, name)
      ensures tables == EditSpec(old(tables), t, name, group, desc)
    {
      EditSpecOk(tables, t, name, group, desc);
      if VariableExists(tables, t, name) {
        tables := tables[t := EditWhere(tables[t], name, group, desc)];
        return true;
      }
      return false;
    }

    method EditVarDefaultInTable(name: string, c: Cell, t: VarType) returns (done: bool)
      requires Valid() && DefaultCellOk(t, c)
      modifies this
      ensures Valid() && connection == old(connection)
      ensures done <==> VariableExists(old(tables), t, name)
      ensures tables == SetDefaultSpec(old(tables), t, name, c)
    {
      SetDefaultSpecOk(tables, t, name, c);
      if VariableExists(tables, t, name) {
        tables := tables[t := SetDefaultWhere(tables[t], name, c)];
        return true;
      }
      return false;
    }

    /**
     * GetInt16 ... GetBoolean: a missing variable reads as the type's zero (GetByteArray throws);
     * without an open connection, the query throws.
     */
    method Get(t: VarType, name: string) returns (r: Outcome<Value>)
      requires t != MetaData
      ensures connection != Connected ==> r == Threw(InvalidOperation)
      ensures connection == Connected ==> r == GetValue(tables, t, name, serialize)
      ensures connection == Connected && !VariableExists(tables, t, name) ==>
        r == if t == ByteArray then Threw(ArgumentError) else Ok(ZeroValue(t))
    {
      if connection != Connected {
        return Threw(InvalidOperation);
      }
      r := GetValue(tables, t, name, serialize);
    }

    /** DeleteInt16 ... DeleteBoolean; without an open connection, the existence query throws. */
    method Delete(t: VarType, name: string) returns (r: Outcome<bool>)
      requires Valid() && t != MetaData
      modifies this
      ensures Valid() && connection == old(connection)
      ensures connection != Connected ==> r == Threw(InvalidOperation) && tables == old(tables)
      ensures connection == Connected ==> r == Ok(VariableExists(old(tables), t, name))
      ensures connection == Connected ==> tables == DeleteSpec(old(tables), t, name)
    {
      if connection != Connected {
        return Threw(InvalidOperation);
      }
      var done := DeleteVarInTable(name, t);
      return Ok(done);
    }

    method DeleteVarInTable(name: string, t: VarType) returns (done: bool)
      requires Valid()
      modifies this
      ensures Valid() && connection == old(connection)
      ensures done <==> VariableExists(old(tables), t, name)
      ensures tables == DeleteSpec(old(tables), t, name)
    {
      DeleteSpecOk(tables, t, name);
      if VariableExists(tables, t, name) {
        tables := tables[t := DeleteWhere(tables[t], name)];
        return true;
      }
      return false;
    }

    // ------------------------------------------------------------ metadata

    method AddMetaData(name: string, group: string, value: string, desc: string) returns (r: Outcome<bool>)
      requires Valid()
      modifies this
      ensures Valid() && connection == old(connection)
      ensures r == AddMetaOutcome(old(tables), name)
      ensures tables == AddMetaSpec(old(tables), name, group, value, desc)
    {
      AddMetaSpecOk(tables, name, group, value, desc);
      if !VariableExists(tables, MetaData, name) {
        if MetaData !in tables {
          return Threw(SqlError);
        }
        tables := tables[MetaData := tables[MetaData] + [Row(name, group, Text(value), Null, desc)]];
        return Ok(true);
      }
      return Ok(false);
    }

    method SetMetaData(name: string, value: string) returns (done: bool)
      requires Valid()
      modifies this
      ensures Valid() && connection == old(connection)
      ensures done <==> VariableExists(old(tables), MetaData, name)
      ensures tables == SetSpec(old(tables), MetaData, name, Text(value))
    {
      done := SetVarInTable(name, Text(value), MetaData);
    }

    method EditMetaData(name: string, desc: string, group: string) returns (done: bool)
      requires Valid()
      modifies this
      ensures Valid() && connection == old(connection)
      ensures done <==> VariableExists(old(tables), MetaData, name)
      ensures tables == EditSpec(old(tables), MetaData, name, group, desc)
    {
      done := EditVarInTable(name, desc, group, MetaData);
    }

    method DeleteMetaData(name: string) returns (done: bool)
      requires Valid()
      modifies this
      ensures Valid() && connection == old(connection)
      ensures done <==> VariableExists(old(tables), MetaData, name)
      ensures tables == DeleteSpec(old(tables), MetaData, name)
    {
      done := DeleteVarInTable(name, MetaData);
    }

    // ------------------------------------------------------------ records

    /** ImportDataEntry: ImportSpec through the open connection; without one, the first query throws. */
    method ImportDataEntry(e: DataEntry) returns (r: Outcome<()>)
      requires Valid()
      modifies this
      ensures Valid() && connection == old(connection)
      ensures connection != Connected ==> r == Threw(InvalidOperation) && tables == old(tables)
      ensures connection == Connected ==> (r, tables) == ImportSpec(old(tables), e)
    {
      if connection != Connected {
        return Threw(InvalidOperation);
      }
      var t := e.variableType;
      if t == MetaData {
        var text := Utf8.Decode(e.value);
        if !VariableExists(tables, MetaData, e.name) {
          var added := AddMetaData(e.name, e.group, text, e.description);
          if added.Threw? {
            return Threw(added.error);
          }
        } else {
          var _ := SetMetaData(e.name, text);
          var _ := EditMetaData(e.name, e.description, e.group);
        }
        return Ok(());
      }
      var v := DecodeValue(t, e.value);
      if v.Threw? {
        return Threw(v.error);
      }
      if !VariableExists(tables, t, e.name) {
        var _ := Add(t, e.name, v.value, e.description, e.group);
      } else {
        var _ := Set(t, e.name, v.value);
        var _ := Edit(t, e.name, e.description, e.group);
      }
      var d := DecodeValue(t, e.default);
      if d.Threw? {
        return Threw(d.error);
      }
      var _ := EditVarDefaultInTable(e.name, ToCell(t, d.value), t);
      return Ok(());
    }

    /** GetAllMetaData ... GetAllBooleans: null when the table does not exist, else one record per row. */
    method GetAll(t: VarType) returns (r: Outcome<Option<seq<DataEntry>>>)
      requires Valid()
      ensures connection != Connected ==> r == Threw(InvalidOperation)
      ensures connection == Connected ==> r == TableRecords(tables, t, serialize)
    {
      if connection != Connected {
        return Threw(InvalidOperation);
      }
      if t !in tables {
        return Ok(None);
      }
      var rows := tables[t];
      var acc: seq<DataEntry> := [];
      var i := 0;
      while i < |rows|
        invariant 0 <= i <= |rows|
        invariant Records(t, rows[..i], serialize) == Ok(acc)
      {
        RecordsStep(t, rows, i, acc, serialize);
        var record := RecordOf(t, rows[i], serialize);
        if record.Threw? {
          return Threw(record.error);
        }
        acc := acc + [record.value];
        i := i + 1;
      }
      assert rows[..i] == rows;
      return Ok(Some(acc));
    }

    /**
     * GetAllTypes: every existing table's records, in the fixed order of TypeOrder; without an
     * open connection, the first listing throws.
     */
    method GetAllTypes() returns (r: Outcome<seq<DataEntry>>)
      requires Valid()
      ensures connection != Connected ==> r == Threw(InvalidOperation)
      ensures connection == Connected ==> r == CollectAll(tables, TypeOrder, serialize)
    {
      if connection != Connected {
        return Threw(InvalidOperation);
      }
      ghost var ps := TablePasses(tables, TypeOrder, serialize);
      assert ps[..0] == [];
      r := AddSixRanges(Ok([]), 0, ps);
      r := AddSixRanges(r, 6, ps);
      assert ps[..12] == ps;
    }

    method GetMode() returns (m: string)
      ensures m == "SQLite"
    {
      return "SQLite";
    }

    /** Six consecutive AddRange lines of GetAllTypes, from the k-th type on. */
    method AddSixRanges(acc: Outcome<seq<DataEntry>>, k: nat, ghost ps: seq<Pass>) returns (r: Outcome<seq<DataEntry>>)
      requires Valid() && connection == Connected && k + 6 <= |ps| && ps == TablePasses(tables, TypeOrder, serialize) && acc == AppendAll(ps[..k])
      ensures r == AppendAll(ps[..k + 6])
    {
      r := AddRange(acc, k, ps);
      r := AddRange(r, k + 1, ps);
      r := AddRange(r, k + 2, ps);
      r := AddRange(r, k + 3, ps);
      r := AddRange(r, k + 4, ps);
      r := AddRange(r, k + 5, ps);
    }

    /**
     * One `if (GetAllX() != null) dataList.AddRange(GetAllX())` line of GetAllTypes, for the k-th type:
     * `ps` are the passes of all the types, and `acc` what the first k of them collected.
     */
    method AddRange(acc: Outcome<seq<DataEntry>>, k: nat, ghost ps: seq<Pass>) returns (r: Outcome<seq<DataEntry>>)
      requires Valid() && connection == Connected && k < |ps| && ps == TablePasses(tables, TypeOrder, serialize) && acc == AppendAll(ps[..k])
      ensures r == AppendAll(ps[..k + 1])
    {
      TablePassesAt(tables, TypeOrder, k, serialize);
      TakeSnoc(ps, k);
      AppendAllSnoc(ps[..k], ps[k]);
      if acc.Threw? {
        return acc;
      }
      var part := GetAll(TypeOrder[k]);
      match part {
        case Threw(e) => r := Threw(e);
        case Ok(None) => r := acc;
        case Ok(Some(es)) => r := Ok(acc.value + es);
      }
    }
  }
}

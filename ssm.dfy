/**
 * The public entry point (SSM.cs): the constructor picks a backend from the mode, or, in Auto
 * mode, from the first bytes of the file; every other method hands its arguments to that
 * backend and returns what it returns. The effect of each call is stated on a Snapshot of the
 * chosen backend's state, through functions that name the backend operation doing the work.
 */
module Facade {
  import opened Wrappers
  import opened Bytes
  import opened Data
  import TableStore
  import SQLiteMode
  import MarkupDoc
  import MarkupMode
  import Utilities

  /** SSM.Mode. */
  datatype Mode = Auto | SQLite | XML

  /** Whether `new SSM(path, mode)` picks the SQLite backend; `fileStart` holds the file's first bytes, as isSQLiteDB reads them. */
  predicate PicksTable(mode: Mode, fileStart: seq<byte>)
  {
    mode == SQLite || (mode == Auto && Utilities.IsSQLiteHeader(fileStart))
  }

  /**
   * SQLite mode always picks the SQLite backend and XML mode the XML one, whatever the file
   * holds; Auto picks SQLite exactly when "SQLite format" is among the file's first 16 bytes.
   */
  lemma ModeSelection(fileStart: seq<byte>)
    ensures PicksTable(SQLite, fileStart) && !PicksTable(XML, fileStart)
    ensures PicksTable(Auto, fileStart) <==> Utilities.MagicInFirst16(fileStart)
  {
    Utilities.SQLiteHeaderIff(fileStart);
  }

  /** The types SSM.cs has methods for: Int16, Int32, Int64, Float, Double, String, ByteArray and Boolean. */
  predicate InFacade(t: VarType)
  {
    MarkupDoc.InMarkup(t) && t != MetaData
  }

  /** The state of the chosen backend. */
  datatype Snapshot =
    | TableSnap(tables: TableStore.Tables, connection: SQLiteMode.Connection)
    | MarkupSnap(doc: MarkupDoc.Doc, saved: MarkupDoc.Doc, autoSave: bool, isOpen: bool)

  /** Open: SQLite's Open, which returns normally with an open connection, or XML's Open. */
  function OpenResult(s: Snapshot, existingTables: Option<TableStore.Tables>, existingDoc: Option<MarkupDoc.Doc>,
                      appVersion: string, formatVersion: string, now: int): (Outcome<()>, Snapshot)
  {
    match s
    case TableSnap(_, _) => (Ok(()), TableSnap(SQLiteMode.OpenSpec(existingTables, appVersion, formatVersion, now), SQLiteMode.Connected))
    case MarkupSnap(_, _, autoSave, _) =>
      var (r, d) := MarkupDoc.OpenSpec(existingDoc, appVersion, formatVersion, now);
      (r, MarkupSnap(d, if autoSave then d else if existingDoc.None? then [] else existingDoc.value, autoSave, true))
  }

  /**
   * Close: SQLite closes its connection, which throws NullReferenceException when Open never made
   * one; XML saves its document, which throws XmlException before Open, when it has no root.
   */
  function CloseResult(s: Snapshot): (Outcome<()>, Snapshot)
  {
    match s
    case TableSnap(tabs, c) =>
      if c == SQLiteMode.NoConnection then (Threw(NullReference), s) else (Ok(()), TableSnap(tabs, SQLiteMode.Disconnected))
    case MarkupSnap(doc, _, autoSave, o) =>
      if !o then (Threw(XmlError), s) else (Ok(()), MarkupSnap(doc, doc, autoSave, o))
  }

  /**
   * AddX: the backend's Add. Without an open connection SQLite's existence query throws
   * InvalidOperationException; before Open XML's AddToHeadingNode throws NullReferenceException.
   */
  function AddResult(s: Snapshot, ft: MarkupDoc.FloatText, t: VarType, name: string, v: Value, desc: string, group: string): (Outcome<bool>, Snapshot)
    requires Fits(t, v)
  {
    match s
    case TableSnap(tabs, c) =>
      if c != SQLiteMode.Connected then (Threw(InvalidOperation), s)
      else (Ok(!TableStore.VariableExists(tabs, t, name)), TableSnap(SQLiteMode.AddSpec(tabs, t, name, group, TableStore.ToCell(t, v), desc), c))
    case MarkupSnap(doc, saved, autoSave, o) =>
      if !o then (Threw(NullReference), s)
      else
        var added := !MarkupDoc.Exists(MarkupDoc.GroupsOf(doc, TableName(t)), name);
        var d := if added then MarkupDoc.AddSpec(doc, TableName(t), group, MarkupDoc.NewVar(name, MarkupDoc.ShowValue(t, v, ft), desc)) else doc;
        (Ok(added), MarkupSnap(d, if added && autoSave then d else saved, autoSave, o))
  }

  /**
   * SetX: the backend's Set; SQLite's query throws without an open connection, XML's throws an
   * XPathException for a name that is not plain.
   */
  function SetResult(s: Snapshot, ft: MarkupDoc.FloatText, t: VarType, name: string, v: Value): (Outcome<bool>, Snapshot)
    requires Fits(t, v)
  {
    match s
    case TableSnap(tabs, c) =>
      if c != SQLiteMode.Connected then (Threw(InvalidOperation), s)
      else (Ok(TableStore.VariableExists(tabs, t, name)), TableSnap(SQLiteMode.SetSpec(tabs, t, name, TableStore.ToCell(t, v)), c))
    case MarkupSnap(doc, saved, autoSave, o) =>
      if !MarkupDoc.PlainName(name) then (Threw(XPathError), s)
      else
        var (r, d) := MarkupDoc.SetSpec(doc, TableName(t), name, MarkupDoc.ShowValue(t, v, ft));
        (r, MarkupSnap(d, if r == Ok(true) && autoSave then d else saved, autoSave, o))
  }

  /** EditX: SQLite's Edit, which throws without an open connection; XML's throws NotImplementedException and changes nothing. */
  function EditResult(s: Snapshot, t: VarType, name: string, desc: string, group: string): (Outcome<bool>, Snapshot)
  {
    match s
    case TableSnap(tabs, c) =>
      if c != SQLiteMode.Connected then (Threw(InvalidOperation), s)
      else (Ok(TableStore.VariableExists(tabs, t, name)), TableSnap(SQLiteMode.EditSpec(tabs, t, name, group, desc), c))
    case MarkupSnap(_, _, _, _) => (Threw(NotImplemented), s)
  }

  /**
   * GetX: the backend's Get; SQLite's never gives null and throws without an open connection, and
   * XML's query throws for a name that is not plain.
   */
  function GetResult(s: Snapshot, ft: MarkupDoc.FloatText, serialize: seq<byte> -> seq<byte>, t: VarType, name: string): Outcome<Option<Value>>
    requires InFacade(t)
  {
    match s
    case TableSnap(tabs, c) =>
      if c != SQLiteMode.Connected then Threw(InvalidOperation)
      else
        (match TableStore.GetValue(tabs, t, name, serialize)
         case Threw(e) => Threw(e)
         case Ok(v) => Ok(Some(v)))
    case MarkupSnap(doc, _, _, _) =>
      if !MarkupDoc.PlainName(name) then Threw(XPathError) else MarkupDoc.GetValue(doc, t, name, ft)
  }

  /**
   * DeleteX: the backend's Delete; SQLite's throws without an open connection, XML's works on the
   * saved file when auto-save is on and gives false for a name that is not plain.
   */
  function DeleteResult(s: Snapshot, t: VarType, name: string): (Outcome<bool>, Snapshot)
  {
    match s
    case TableSnap(tabs, c) =>
      if c != SQLiteMode.Connected then (Threw(InvalidOperation), s)
      else (Ok(TableStore.VariableExists(tabs, t, name)), TableSnap(SQLiteMode.DeleteSpec(tabs, t, name), c))
    case MarkupSnap(doc, saved, autoSave, o) =>
      var start := if autoSave then saved else doc;
      if !MarkupDoc.PlainName(name) then (Ok(false), MarkupSnap(start, saved, autoSave, o))
      else
        var (r, d) := MarkupDoc.RemoveSpec(start, TableName(t), name);
        (Ok(r == Ok(true)), MarkupSnap(d, if autoSave then d else saved, autoSave, o))
  }

  /** SSM: the path and mode it was made with and the backend it picked, none of them ever reassigned. */
  class SSM {
    const settingsPath: string
    const mode: Mode
    /** `_handler` when it is the SQLite backend, else null. */
    const table: SQLiteMode.SQLiteStore?
    /** `_handler` when it is the XML backend, else null. */
    const markup: MarkupMode.XMLStore?
    /** The backends' parameters: BinaryFormatter serialization and the text forms of floats. */
    const serialize: seq<byte> -> seq<byte>
    const ft: MarkupDoc.FloatText

    ghost predicate Valid()
      reads this, table, markup
    {
      (table == null) != (markup == null) &&
      (table != null ==> table.Valid() && table.serialize == serialize) &&
      (markup != null ==> markup.Valid() && markup.ft == ft)
    }

    /** The state of the chosen backend. */
    ghost function State(): Snapshot
      requires Valid()
      reads this, table, markup
    {
      if table != null then TableSnap(table.tables, table.connection)
      else MarkupSnap(markup.doc, markup.saved, markup.autoSave, markup.isOpen)
    }

    /**
     * `new SSM(settingsPath, mode)` on a file whose first bytes are `fileStart` (in Auto mode
     * the file must be there, see Create).
     */
    constructor (settingsPath: string, mode: Mode, fileStart: seq<byte>,
                 serialize: seq<byte> -> seq<byte>, ft: MarkupDoc.FloatText)
      ensures Valid() && this.settingsPath == settingsPath && this.mode == mode
      ensures this.serialize == serialize && this.ft == ft
      ensures (table != null) <==> PicksTable(mode, fileStart)
      ensures table != null ==> fresh(table) && table.tables == map[] && table.connection == SQLiteMode.NoConnection
      ensures markup != null ==> fresh(markup) && markup.doc == [] && markup.saved == [] && markup.autoSave && !markup.isOpen
    {
      this.settingsPath := settingsPath;
      this.mode := mode;
      this.serialize := serialize;
      this.ft := ft;
      if PicksTable(mode, fileStart) {
        table := new SQLiteMode.SQLiteStore(serialize);
        markup := null;
      } else {
        table := null;
        markup := new MarkupMode.XMLStore(ft);
      }
    }

    /** Open: the backend's Open on the file at the path, which each backend reads in its own form. */
    method Open(existingTables: Option<TableStore.Tables>, existingDoc: Option<MarkupDoc.Doc>,
                appVersion: string, formatVersion: string, now: int) returns (r: Outcome<()>)
      requires Valid()
      requires table != null && existingTables.Some? ==> TableStore.TablesOk(existingTables.value)
      requires markup != null ==> (existingDoc.None? ==> markup.doc == []) && (existingDoc.Some? ==> MarkupDoc.HeadingsUnique(existingDoc.value))
      modifies table, markup
      ensures Valid()
      ensures (r, State()) == OpenResult(old(State()), existingTables, existingDoc, appVersion, formatVersion, now)
    {
      if table != null {
        table.Open(existingTables, appVersion, formatVersion, now);
        r := Ok(());
      } else {
        r := markup.Open(existingDoc, appVersion, formatVersion, now);
      }
    }

    method Close() returns (r: Outcome<()>)
      requires Valid()
      modifies table, markup
      ensures Valid() && (r, State()) == CloseResult(old(State()))
    {
      if table != null {
        r := table.Close();
      } else {
        r := markup.Close();
      }
    }

    /** AddInt16 ... AddBoolean. */
    method Add(t: VarType, name: string, v: Value, desc: string, group: string) returns (r: Outcome<bool>)
      requires Valid() && InFacade(t) && Fits(t, v)
      requires markup != null ==> MarkupDoc.PlainName(name) && MarkupDoc.PlainName(group)
      modifies table, markup
      ensures Valid() && (r, State()) == AddResult(old(State()), ft, t, name, v, desc, group)
    {
      if table != null {
        r := table.Add(t, name, v, desc, group);
      } else {
        r := markup.Add(t, name, v, desc, group);
      }
    }

    /** AddInt: AddInt32. */
    method AddInt(name: string, value: int, desc: string, group: string) returns (r: Outcome<bool>)
      requires Valid() && InSignedRange(value, 4)
      requires markup != null ==> MarkupDoc.PlainName(name) && MarkupDoc.PlainName(group)
      modifies table, markup
      ensures Valid() && (r, State()) == AddResult(old(State()), ft, Int32, name, IntValue(value), desc, group)
    {
      r := Add(Int32, name, IntValue(value), desc, group);
    }

    /** AddLong: AddInt64. */
    method AddLong(name: string, value: int, desc: string, group: string) returns (r: Outcome<bool>)
      requires Valid() && InSignedRange(value, 8)
      requires markup != null ==> MarkupDoc.PlainName(name) && MarkupDoc.PlainName(group)
      modifies table, markup
      ensures Valid() && (r, State()) == AddResult(old(State()), ft, Int64, name, IntValue(value), desc, group)
    {
      r := Add(Int64, name, IntValue(value), desc, group);
    }

    /** SetInt16 ... SetBoolean. */
    method Set(t: VarType, name: string, v: Value) returns (r: Outcome<bool>)
      requires Valid() && InFacade(t) && Fits(t, v)
      modifies table, markup
      ensures Valid() && (r, State()) == SetResult(old(State()), ft, t, name, v)
    {
      if table != null {
        r := table.Set(t, name, v);
      } else {
        r := markup.Set(t, name, v);
      }
    }

    /** SetInt: SetInt32. */
    method SetInt(name: string, value: int) returns (r: Outcome<bool>)
      requires Valid() && InSignedRange(value, 4)
      modifies table, markup
      ensures Valid() && (r, State()) == SetResult(old(State()), ft, Int32, name, IntValue(value))
    {
      r := Set(Int32, name, IntValue(value));
    }

    /** SetLong: SetInt64. */
    method SetLong(name: string, value: int) returns (r: Outcome<bool>)
      requires Valid() && InSignedRange(value, 8)
      modifies table, markup
      ensures Valid() && (r, State()) == SetResult(old(State()), ft, Int64, name, IntValue(value))
    {
      r := Set(Int64, name, IntValue(value));
    }

    /** EditInt16 ... EditBoolean. */
    method Edit(t: VarType, name: string, desc: string, group: string) returns (r: Outcome<bool>)
      requires Valid() && InFacade(t)
      modifies table, markup
      ensures Valid() && (r, State()) == EditResult(old(State()), t, name, desc, group)
    {
      if table != null {
        r := table.Edit(t, name, desc, group);
      } else {
        r := markup.Edit(t, name, desc, group);
      }
    }

    /** EditInt: EditInt32. */
    method EditInt(name: string, desc: string, group: string) returns (r: Outcome<bool>)
      requires Valid()
      modifies table, markup
      ensures Valid() && (r, State()) == EditResult(old(State()), Int32, name, desc, group)
    {
      r := Edit(Int32, name, desc, group);
    }

    /** EditLong: EditInt64. */
    method EditLong(name: string, desc: string, group: string) returns (r: Outcome<bool>)
      requires Valid()
      modifies table, markup
      ensures Valid() && (r, State()) == EditResult(old(State()), Int64, name, desc, group)
    {
      r := Edit(Int64, name, desc, group);
    }

    /** GetInt16 ... GetBoolean. */
    method Get(t: VarType, name: string) returns (r: Outcome<Option<Value>>)
      requires Valid() && InFacade(t)
      ensures r == GetResult(State(), ft, serialize, t, name)
    {
      if table != null {
        var o := table.Get(t, name);
        r := if o.Threw? then Threw(o.error) else Ok(Some(o.value));
      } else {
        r := markup.Get(t, name);
      }
    }

    /** GetInt: GetInt32. */
    method GetInt(name: string) returns (r: Outcome<Option<Value>>)
      requires Valid()
      ensures r == GetResult(State(), ft, serialize, Int32, name)
    {
      r := Get(Int32, name);
    }

    /** GetLong: GetInt64. */
    method GetLong(name: string) returns (r: Outcome<Option<Value>>)
      requires Valid()
      ensures r == GetResult(State(), ft, serialize, Int64, name)
    {
      r := Get(Int64, name);
    }

    /** DeleteInt16 ... DeleteBoolean. */
    method Delete(t: VarType, name: string) returns (r: Outcome<bool>)
      requires Valid() && InFacade(t)
      modifies table, markup
      ensures Valid() && (r, State()) == DeleteResult(old(State()), t, name)
    {
      if table != null {
        r := table.Delete(t, name);
      } else {
        var deleted := markup.Delete(t, name);
        r := Ok(deleted);
      }
    }

    /** DeleteInt: DeleteInt32. */
    method DeleteInt(name: string) returns (r: Outcome<bool>)
      requires Valid()
      modifies table, markup
      ensures Valid() && (r, State()) == DeleteResult(old(State()), Int32, name)
    {
      r := Delete(Int32, name);
    }

    /** DeleteLong: DeleteInt64. */
    method DeleteLong(name: string) returns (r: Outcome<bool>)
      requires Valid()
      modifies table, markup
      ensures Valid() && (r, State()) == DeleteResult(old(State()), Int64, name)
    {
      r := Delete(Int64, name);
    }
  }

  /**
   * `new SSM(settingsPath, mode)`: in Auto mode isSQLiteDB opens the file, which throws
   * FileNotFoundException when `file` (the file's bytes) is absent.
   */
  method Create(settingsPath: string, mode: Mode, file: Option<seq<byte>>,
                serialize: seq<byte> -> seq<byte>, ft: MarkupDoc.FloatText) returns (r: Outcome<SSM>)
    ensures r.Threw? <==> mode == Auto && file.None?
    ensures r.Threw? ==> r.error == FileNotFound
    ensures r.Ok? ==> fresh(r.value) && r.value.Valid() && r.value.settingsPath == settingsPath && r.value.mode == mode
    ensures r.Ok? ==> (r.value.table != null <==> PicksTable(mode, if file.Some? then file.value else []))
  {
    if mode == Auto && file.None? {
      return Threw(FileNotFound);
    }
    var s := new SSM(settingsPath, mode, if file.Some? then file.value else [], serialize, ft);
    return Ok(s);
  }
}

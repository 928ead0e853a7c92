/**
 * The XML backend (Mode/XML.cs): a class holding the document in memory and the document last
 * saved to the file, with the `_autoSave` switch. Each public operation is proved against the
 * function of MarkupDoc that describes it; what those functions promise is proved there.
 */
module MarkupMode {
  import opened Wrappers
  import opened Data
  import opened MarkupDoc
  import DecimalText

  /** The XML backend: the document `_xmlDoc`, the file at `_settingsPath`, and `_autoSave`. */
  class XMLStore {
    /** The children of the `SSM` root of `_xmlDoc`. */
    var doc: Doc
    /** The document as last saved to the file: what LoadXML reads back. */
    var saved: Doc
    var autoSave: bool
    /**
     * Whether Open has run: `_settingsPath` is set and `_xmlDoc` has its `SSM` root. Before that
     * `DocumentElement` is null and there is no file to load or save.
     */
    var isOpen: bool
    /** The text forms of float and double values. */
    const ft: FloatText

    ghost predicate Valid()
      reads this
    {
      HeadingsUnique(doc) && HeadingsUnique(saved) && (!isOpen ==> doc == [] && saved == [])
    }

    constructor (ft: FloatText)
      ensures Valid() && doc == [] && saved == [] && autoSave && !isOpen && this.ft == ft
    {
      doc := [];
      saved := [];
      autoSave := true;
      isOpen := false;
      this.ft := ft;
    }

    // ------------------------------------------------------------ Init

    /**
     * Open: `existing` is the document in the file at the path, if there is one. A new file gets
     * the eight metadata variables, an existing one (reloaded whatever was in memory, and pruned
     * of empty headings) has its three last-access variables rewritten. Creating a file appends
     * an `SSM` root to the in-memory document, so it needs that document empty, as it is on a
     * freshly constructed object.
     */
    method Open(existing: Option<Doc>, appVersion: string, formatVersion: string, now: int) returns (r: Outcome<()>)
      requires Valid() && (existing.None? ==> doc == []) && (existing.Some? ==> HeadingsUnique(existing.value))
      modifies this
      ensures Valid() && autoSave == old(autoSave) && isOpen
      ensures (r, doc) == OpenSpec(existing, appVersion, formatVersion, now)
      ensures saved == if autoSave then doc else if existing.None? then [] else existing.value
    {
      var isNew := CreateXmlFile(existing);
      if isNew {
        AddNewMetaData(appVersion, formatVersion, now);
        r := Ok(());
      } else {
        r := SetExistingMetaData(formatVersion, now);
      }
    }

    /** The eight AddMetaData calls of Open on a new file. */
    method AddNewMetaData(appVersion: string, formatVersion: string, now: int)
      requires Valid() && isOpen && doc == []
      modifies this
      ensures Valid() && autoSave == old(autoSave) && isOpen == old(isOpen) && doc == SeedDoc(appVersion, formatVersion, now)
      ensures saved == if autoSave then doc else old(saved)
    {
      var it := NewFileMeta(appVersion, formatVersion, now, "XML");
      NewFileShaped(appVersion, formatVersion, now);
      SeedNamesPlain(appVersion, formatVersion, now);
      SeedAll(it);
      SeedAfterIsSeedDoc(appVersion, formatVersion, now);
    }

    /** The eight AddMetaData calls, for any items shaped as the seed items are. */
    method SeedAll(items: seq<MetaItem>)
      requires SeedShaped(items) && ItemsPlain(items)
      requires Valid() && isOpen && doc == []
      modifies this
      ensures Valid() && autoSave == old(autoSave) && isOpen == old(isOpen) && doc == SeedAfter(items)
      ensures saved == if autoSave then doc else old(saved)
    {
      ghost var ds := SeedDocs(items);
      SeedChain(items);
      SeedMeta(items[0], ds[0], ds[1]);
      SeedMeta(items[1], ds[1], ds[2]);
      SeedMeta(items[2], ds[2], ds[3]);
      SeedMeta(items[3], ds[3], ds[4]);
      SeedMeta(items[4], ds[4], ds[5]);
      SeedMeta(items[5], ds[5], ds[6]);
      SeedMeta(items[6], ds[6], ds[7]);
      SeedMeta(items[7], ds[7], ds[8]);
    }

    /** One of those calls: the name is new, so the item is added. */
    method SeedMeta(item: MetaItem, ghost before: Doc, ghost after: Doc)
      requires Valid() && isOpen && doc == before && SeedLink(before, item, after)
      requires PlainName(item.name) && PlainName(item.group)
      modifies this
      ensures Valid() && autoSave == old(autoSave) && isOpen == old(isOpen) && doc == after
      ensures saved == if autoSave then doc else old(saved)
    {
      var r := AddMetaData(item.name, item.group, item.value, item.desc);
    }

    /** The three SetMetaData calls of Open on an existing file; an exception ends them. */
    method SetExistingMetaData(formatVersion: string, now: int) returns (r: Outcome<()>)
      requires Valid() && (autoSave ==> saved == doc)
      modifies this
      ensures Valid() && autoSave == old(autoSave) && isOpen == old(isOpen)
      ensures (r, doc) == RefreshSpec(old(doc), formatVersion, now)
      ensures saved == if autoSave then doc else old(saved)
    {
      LastAccessVersionNamesPlain();
      LastAccessStampNamesPlain();
      ghost var d0 := doc;
      var s1 := SetMetaData("SSM_LastAccessFormatVersion", formatVersion);
      if s1.Threw? {
        return Threw(s1.error);
      }
      ghost var d1 := doc;
      var s2 := SetMetaData("SSM_LastLoadedTimestamp", DecimalText.ShowInt(now));
      if s2.Threw? {
        return Threw(s2.error);
      }
      ghost var d2 := doc;
      var s3 := SetMetaData("SSM_LastAccessMode", "XML");
      if s3.Threw? {
        return Threw(s3.error);
      }
      RefreshAllSteps(d0, d1, d2, doc, s1, s2, s3, formatVersion, now);
      return Ok(());
    }

    /**
     * CreateXmlFile: a missing file is created holding an empty root; then the file is loaded and
     * cleaned of empty headings, and saved again when auto-save is on.
     */
    method CreateXmlFile(existing: Option<Doc>) returns (isNew: bool)
      requires Valid() && (existing.Some? ==> HeadingsUnique(existing.value))
      modifies this
      ensures Valid() && autoSave == old(autoSave) && isOpen
      ensures isNew <==> existing.None?
      ensures doc == if isNew then [] else Prune(existing.value)
      ensures saved == if autoSave then doc else if isNew then [] else existing.value
    {
      isNew := false;
      isOpen := true;
      if existing.None? {
        doc := [];
        var _ := SaveXML();
        isNew := true;
      } else {
        saved := existing.value;
      }
      var _ := LoadXML();
      var _ := CleanXMLFile();
      if autoSave {
        var _ := SaveXML();
      }
    }

    /** Close is SaveXML, which fails before Open, when the document has no root element. */
    method Close() returns (r: Outcome<()>)
      requires Valid()
      modifies this
      ensures Valid() && doc == old(doc) && autoSave == old(autoSave) && isOpen == old(isOpen)
      ensures !isOpen ==> r == Threw(XmlError) && saved == old(saved)
      ensures isOpen ==> r == Ok(()) && saved == doc
    {
      r := SaveXML();
    }

    method SetAutoSave(autoSave: bool)
      modifies this
      ensures this.autoSave == autoSave && isOpen == old(isOpen) && doc == old(doc) && saved == old(saved)
    {
      this.autoSave := autoSave;
    }

    method GetAutoSave() returns (b: bool)
      ensures b == autoSave
    {
      return autoSave;
    }

    /**
     * SaveXML: the in-memory document is written to the file; before Open, `Save` refuses a
     * document without a root element.
     */
    method SaveXML() returns (r: Outcome<()>)
      modifies this
      ensures doc == old(doc) && autoSave == old(autoSave) && isOpen == old(isOpen)
      ensures !isOpen ==> r == Threw(XmlError) && saved == old(saved)
      ensures isOpen ==> r == Ok(()) && saved == doc
    {
      if !isOpen {
        return Threw(XmlError);
      }
      saved := doc;
      return Ok(());
    }

    /**
     * LoadXML: the document is read back from the file; before Open there is no path, and the
     * failure is rethrown as the "Loading XML Failed" exception.
     */
    method LoadXML() returns (r: Outcome<()>)
      modifies this
      ensures saved == old(saved) && autoSave == old(autoSave) && isOpen == old(isOpen)
      ensures !isOpen ==> r == Threw(LoadFailed) && doc == old(doc)
      ensures isOpen ==> r == Ok(()) && doc == old(saved)
    {
      if !isOpen {
        return Threw(LoadFailed);
      }
      doc := saved;
      return Ok(());
    }

    method CleanXMLFile() returns (r: Outcome<()>)
      requires Valid()
      modifies this
      ensures Valid() && autoSave == old(autoSave) && isOpen == old(isOpen)
      ensures !isOpen && autoSave ==> r == Threw(LoadFailed) && doc == old(doc) && saved == old(saved)
      ensures isOpen || !autoSave ==> r == Ok(())
      ensures isOpen || !autoSave ==> doc == Prune(if autoSave then old(saved) else old(doc))
      ensures saved == if autoSave then doc else old(saved)
    {
      r := DeleteEmptyParents();
    }

    /**
     * DeleteEmptyParents, with the loop written as evidently intended: the index advances only
     * past a heading that stays. (The outer loop of the source also visits the XML declaration,
     * which has no children.)
     */
    method DeleteEmptyParents() returns (r: Outcome<()>)
      requires Valid()
      modifies this
      ensures Valid() && autoSave == old(autoSave) && isOpen == old(isOpen)
      ensures !isOpen && autoSave ==> r == Threw(LoadFailed) && doc == old(doc) && saved == old(saved)
      ensures isOpen || !autoSave ==> r == Ok(())
      ensures isOpen || !autoSave ==> doc == Prune(if autoSave then old(saved) else old(doc))
      ensures saved == if autoSave then doc else old(saved)
    {
      if autoSave {
        var loaded := LoadXML();
        if loaded.Threw? {
          return loaded;
        }
      }
      PruneEmpty();
      if autoSave {
        var _ := SaveXML();
      }
      return Ok(());
    }

    /** The loop of DeleteEmptyParents: each heading without groups is removed, the rest keep their order. */
    method PruneEmpty()
      requires Valid()
      modifies this
      ensures Valid() && autoSave == old(autoSave) && isOpen == old(isOpen) && saved == old(saved)
      ensures doc == Prune(old(doc))
    {
      ghost var d0 := doc;
      ghost var m := 0;
      var n := 0;
      while n < |doc|
        invariant 0 <= m <= |d0| && saved == old(saved) && autoSave == old(autoSave) && isOpen == old(isOpen)
        invariant n == |Prune(d0[..m])| && doc == Prune(d0[..m]) + d0[m..]
        decreases |doc| - n
      {
        PruneStep(d0, m, doc);
        if doc[n].groups == [] {
          doc := doc[..n] + doc[n + 1..];
        } else {
          n := n + 1;
        }
        m := m + 1;
      }
      assert m == |d0| && d0[..m] == d0 && d0[m..] == [];
      assert doc == Prune(d0);
      PruneKeeps(d0);
    }

    // ------------------------------------------------------------ Add, Set, Edit, Get

    /**
     * AddInt16 ... AddBoolean (AddInt and AddLong are AddInt32 and AddInt64): false and no change
     * when some group of the type's heading holds the name; otherwise AddSpec's document. Before
     * Open, AddToHeadingNode reads the null `DocumentElement` and throws.
     */
    method Add(t: VarType, name: string, v: Value, desc: string, group: string) returns (r: Outcome<bool>)
      requires Valid() && InMarkup(t) && t != MetaData && Fits(t, v) && PlainName(name) && PlainName(group)
      modifies this
      ensures Valid() && autoSave == old(autoSave) && isOpen == old(isOpen)
      ensures !isOpen ==> r == Threw(NullReference) && doc == old(doc)
      ensures isOpen ==> r == Ok(!Exists(GroupsOf(old(doc), TableName(t)), name))
      ensures doc == if r == Ok(true) then AddSpec(old(doc), TableName(t), group, NewVar(name, ShowValue(t, v, ft), desc)) else old(doc)
      ensures saved == if r == Ok(true) && autoSave then doc else old(saved)
    {
      r := AddVariable(TableName(t), name, ShowValue(t, v, ft), desc, group);
    }

    /** AddMetaData: Add under the `_MetaData` heading, with the value given as text. */
    method AddMetaData(name: string, group: string, value: string, desc: string) returns (r: Outcome<bool>)
      requires Valid() && PlainName(name) && PlainName(group)
      modifies this
      ensures Valid() && autoSave == old(autoSave) && isOpen == old(isOpen)
      ensures !isOpen ==> r == Threw(NullReference) && doc == old(doc)
      ensures isOpen ==> r == Ok(!Exists(GroupsOf(old(doc), MetaHeading), name))
      ensures doc == if r == Ok(true) then AddSpec(old(doc), MetaHeading, group, NewVar(name, value, desc)) else old(doc)
      ensures saved == if r == Ok(true) && autoSave then doc else old(saved)
    {
      r := AddVariable(MetaHeading, name, value, desc, group);
    }

    /** The body the Add methods share, for heading h and the value's text. */
    method AddVariable(h: string, name: string, text: string, desc: string, group: string) returns (r: Outcome<bool>)
      requires Valid()
      modifies this
      ensures Valid() && autoSave == old(autoSave) && isOpen == old(isOpen)
      ensures !isOpen ==> r == Threw(NullReference) && doc == old(doc)
      ensures isOpen ==> r == Ok(!Exists(GroupsOf(old(doc), h), name))
      ensures doc == if r == Ok(true) then AddSpec(old(doc), h, group, NewVar(name, text, desc)) else old(doc)
      ensures saved == if r == Ok(true) && autoSave then doc else old(saved)
    {
      var found := DoesVariableExist(name, h);
      if found {
        return Ok(false);
      }
      if !isOpen {
        return Threw(NullReference);
      }
      var x := NewVar(name, text, desc);
      AddSpecHeadings(doc, h, group, x, h);
      doc := AddSpec(doc, h, group, x);
      if autoSave {
        var _ := SaveXML();
      }
      return Ok(true);
    }

    /** DoesVariableExist: `//SSM/{type}/<any>/{name}` selects at least one node. */
    method DoesVariableExist(name: string, h: string) returns (b: bool)
      ensures b <==> Exists(GroupsOf(doc, h), name)
    {
      return Exists(GroupsOf(doc, h), name);
    }

    /**
     * SetInt16 ... SetBoolean: true when exactly one node of that name is under the type's
     * heading; its `value` text becomes the value's text. A name that is not a plain element
     * name makes the query `//SSM/{type}/<any>/{name}` fail with an XPathException.
     */
    method Set(t: VarType, name: string, v: Value) returns (r: Outcome<bool>)
      requires Valid() && InMarkup(t) && t != MetaData && Fits(t, v)
      modifies this
      ensures Valid() && autoSave == old(autoSave) && isOpen == old(isOpen)
      ensures !PlainName(name) ==> r == Threw(XPathError) && doc == old(doc)
      ensures PlainName(name) ==> (r, doc) == SetSpec(old(doc), TableName(t), name, ShowValue(t, v, ft))
      ensures saved == if r == Ok(true) && autoSave then doc else old(saved)
    {
      if !PlainName(name) {
        return Threw(XPathError);
      }
      r := SetVariable(TableName(t), name, ShowValue(t, v, ft));
    }

    method SetMetaData(name: string, value: string) returns (r: Outcome<bool>)
      requires Valid() && PlainName(name)
      modifies this
      ensures Valid() && autoSave == old(autoSave) && isOpen == old(isOpen)
      ensures (r, doc) == SetSpec(old(doc), MetaHeading, name, value)
      ensures r != Ok(true) ==> doc == old(doc)
      ensures saved == if r == Ok(true) && autoSave then doc else old(saved)
    {
      r := SetVariable(MetaHeading, name, value);
    }

    method SetVariable(h: string, name: string, text: string) returns (r: Outcome<bool>)
      requires Valid()
      modifies this
      ensures Valid() && autoSave == old(autoSave) && isOpen == old(isOpen)
      ensures (r, doc) == SetSpec(old(doc), h, name, text)
      ensures r != Ok(true) ==> doc == old(doc)
      ensures saved == if r == Ok(true) && autoSave then doc else old(saved)
    {
      SetSpecEffect(doc, h, name, text, h, name);
      var s := SetSpec(doc, h, name, text);
      r := s.0;
      doc := s.1;
      if r == Ok(true) && autoSave {
        var _ := SaveXML();
      }
    }

    /** EditInt16 ... EditBoolean and EditMetaData are not implemented: they throw and change nothing. */
    method Edit(t: VarType, name: string, desc: string, group: string) returns (r: Outcome<bool>)
      ensures r == Threw(NotImplemented)
    {
      return Threw(NotImplemented);
    }

    /**
     * GetInt16 ... GetBoolean: the parsed `value` text of the only node of that name, else the
     * type's zero or null; the query fails as in Set for a name that is not plain.
     */
    method Get(t: VarType, name: string) returns (r: Outcome<Option<Value>>)
      requires Valid() && InMarkup(t) && t != MetaData
      ensures !PlainName(name) ==> r == Threw(XPathError)
      ensures PlainName(name) ==> r == GetValue(doc, t, name, ft)
    {
      if !PlainName(name) {
        return Threw(XPathError);
      }
      var x := Found(GroupsOf(doc, TableName(t)), name);
      if x.None? {
        return Ok(Missing(t));
      }
      var text := FieldText(x.value.fields, "value");
      if text.None? {
        return Threw(NullReference);
      }
      var v := ParseText(t, text.value, ft);
      if v.Threw? {
        return Threw(v.error);
      }
      return Ok(Some(v.value));
    }

    // ------------------------------------------------------------ Delete

    /**
     * DeleteInt16 ... DeleteBoolean, as evidently intended: with auto-save on, the file is
     * reloaded first; the first variable of that name under the type's heading is removed and
     * empty headings are pruned. For a name that is not plain the query throws after the reload,
     * and the catch of RemoveXmlElement turns that into false.
     */
    method Delete(t: VarType, name: string) returns (deleted: bool)
      requires Valid() && InMarkup(t) && t != MetaData
      modifies this
      ensures Valid() && autoSave == old(autoSave) && isOpen == old(isOpen)
      ensures !PlainName(name) ==> !deleted && doc == (if autoSave then old(saved) else old(doc))
      ensures PlainName(name) ==> (Ok(deleted), doc) == RemoveSpec(if autoSave then old(saved) else old(doc), TableName(t), name)
      ensures saved == if autoSave then doc else old(saved)
    {
      if !PlainName(name) {
        if autoSave {
          var _ := LoadXML();
        }
        return false;
      }
      deleted := RemoveXmlElement(name, TableName(t));
    }

    method DeleteMetaData(name: string) returns (deleted: bool)
      requires Valid() && PlainName(name)
      modifies this
      ensures Valid() && autoSave == old(autoSave) && isOpen == old(isOpen)
      ensures (Ok(deleted), doc) == RemoveSpec(if autoSave then old(saved) else old(doc), MetaHeading, name)
      ensures saved == if autoSave then doc else old(saved)
    {
      deleted := RemoveXmlElement(name, MetaHeading);
    }

    /** RemoveXmlElement as evidently intended (the path of the type's heading, the node itself removed). */
    method RemoveXmlElement(name: string, h: string) returns (removed: bool)
      requires Valid()
      modifies this
      ensures Valid() && autoSave == old(autoSave) && isOpen == old(isOpen)
      ensures (Ok(removed), doc) == RemoveSpec(if autoSave then old(saved) else old(doc), h, name)
      ensures saved == if autoSave then doc else old(saved)
    {
      if autoSave {
        var loaded := LoadXML();
        if loaded.Threw? {
          return false;
        }
      }
      var gs := GroupsOf(doc, h);
      if !Exists(gs, name) {
        return false;
      }
      var p := Locate(gs, name);
      WithGroupsOf(doc, h, DropVar(gs, p.0, p.1), h);
      doc := WithGroups(doc, h, DropVar(gs, p.0, p.1));
      if autoSave {
        var _ := SaveXML();
      }
      var _ := DeleteEmptyParents();
      return true;
    }

    // ------------------------------------------------------------ DataEntry

    /** ImportDataEntry is not implemented: it throws and changes nothing. */
    method ImportDataEntry(e: DataEntry) returns (r: Outcome<()>)
      ensures r == Threw(NotImplemented)
    {
      return Threw(NotImplemented);
    }

    /**
     * GetAllMetaData ... GetAllBooleans: null when the type's heading has no groups; otherwise a
     * record per variable, group by group and child by child.
     */
    method GetAll(t: VarType) returns (r: Outcome<Option<seq<DataEntry>>>)
      requires Valid() && InMarkup(t)
      ensures r == TypeRecords(doc, t, ft)
    {
      var gs := GroupsOf(doc, TableName(t));
      if gs == [] {
        return Ok(None);
      }
      var acc: seq<DataEntry> := [];
      var g := 0;
      while g < |gs|
        invariant 0 <= g <= |gs|
        invariant Records(t, AllVars(gs[..g]), ft) == Ok(acc)
      {
        var part := ReadGroup(t, gs, g, acc);
        if part.Threw? {
          TypeRecordsOfListing(doc, t, ft, part);
          return Threw(part.error);
        }
        acc := part.value;
        g := g + 1;
      }
      assert gs[..g] == gs;
      TypeRecordsOfListing(doc, t, ft, Ok(acc));
      return Ok(Some(acc));
    }

    /**
     * The inner loop of GetAllX: the records of group g appended to `acc`, which holds those of the
     * groups before it; the first exception is the whole listing's.
     */
    method ReadGroup(t: VarType, gs: seq<Group>, g: nat, acc: seq<DataEntry>) returns (r: Outcome<seq<DataEntry>>)
      requires InMarkup(t) && g < |gs| && Records(t, AllVars(gs[..g]), ft) == Ok(acc)
      ensures r.Threw? ==> Records(t, AllVars(gs), ft) == r
      ensures r.Ok? ==> Records(t, AllVars(gs[..g + 1]), ft) == r
    {
      var group := gs[g];
      var list := acc;
      VisitedStart(gs, g);
      var i := 0;
      while i < |group.vars|
        invariant 0 <= i <= |group.vars|
        invariant Records(t, Visited(gs, g, i), ft) == Ok(list)
      {
        RecordsStep(t, gs, g, i, list, ft);
        var e := EntryOf(t, group.name, group.vars[i], ft);
        if e.Threw? {
          return Threw(e.error);
        }
        list := list + [e.value];
        i := i + 1;
      }
      VisitedPrefix(gs, g, i);
      return Ok(list);
    }

    /** GetAllTypes: the lists of the nine headings appended in the fixed order of MarkupOrder. */
    method GetAllTypes() returns (r: Outcome<seq<DataEntry>>)
      requires Valid()
      ensures r == AllTypesSpec(doc, ft)
    {
      ghost var ps := Passes(doc, MarkupOrder, ft);
      assert ps[..0] == [];
      r := AddThreeRanges(Ok([]), 0, ps);
      r := AddThreeRanges(r, 3, ps);
      r := AddThreeRanges(r, 6, ps);
      assert ps[..9] == ps;
    }

    /** Three consecutive AddRange lines of GetAllTypes, from the k-th type on. */
    method AddThreeRanges(acc: Outcome<seq<DataEntry>>, k: nat, ghost ps: seq<Pass>) returns (r: Outcome<seq<DataEntry>>)
      requires Valid() && k + 3 <= |ps| && ps == Passes(doc, MarkupOrder, ft) && acc == AppendAll(ps[..k])
      ensures r == AppendAll(ps[..k + 3])
    {
      r := AddRange(acc, k, ps);
      r := AddRange(r, k + 1, ps);
      r := AddRange(r, k + 2, ps);
    }

    /**
     * One `if (GetAllX() != null) dataList.AddRange(GetAllX())` line of GetAllTypes, for the k-th type:
     * `ps` are the passes of all the types, and `acc` what the first k of them collected.
     */
    method AddRange(acc: Outcome<seq<DataEntry>>, k: nat, ghost ps: seq<Pass>) returns (r: Outcome<seq<DataEntry>>)
      requires Valid() && k < |ps| && ps == Passes(doc, MarkupOrder, ft) && acc == AppendAll(ps[..k])
      ensures r == AppendAll(ps[..k + 1])
    {
      PassesAt(doc, MarkupOrder, k, ft);
      TakeSnoc(ps, k);
      AppendAllSnoc(ps[..k], ps[k]);
      if acc.Threw? {
        return acc;
      }
      var part := GetAll(MarkupOrder[k]);
      match part {
        case Threw(e) => r := Threw(e);
        case Ok(None) => r := acc;
        case Ok(Some(es)) => r := Ok(acc.value + es);
      }
    }

    method GetMode() returns (m: string)
      ensures m == "XML"
    {
      return "XML";
    }
  }
}

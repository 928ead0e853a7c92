/**
 * XmlSettingsMigration (Migration/XmlSettingsMigration.cs): reads a settings file of the older
 * XmlSettings library, turns every value it holds into a DataEntry and imports those into a new
 * SSM file. The foreign document is modelled as the sections that `//body/{tag}` selects; the
 * extractors and GetAllTypes are proved against the functions ForeignRecords and Collected, and
 * Migrate against the plan of calls XmlPlan, about which the lemmas at the end are stated.
 */
module ForeignMigration {
  import opened Wrappers
  import opened Bytes
  import opened Data
  import opened MigrationStore
  import MarkupDoc
  import DecimalText
  import CrossMigration

  // ---------------------------------------------------------------- the foreign document

  /**
   * A variable element of an XmlSettings file: its element name, its `default` attribute (None
   * when it has none) and the inner text of each of its child nodes.
   */
  datatype ForeignVar = ForeignVar(name: string, default: Option<string>, children: seq<string>)

  /** An element named `tag` directly under a `body` element, with its element children. */
  datatype Section = Section(tag: string, vars: seq<ForeignVar>)

  /** The sections of a loaded file, in document order. */
  type ForeignDoc = seq<Section>

  /** The types an XmlSettings file can hold: all but the metadata type. */
  type ForeignType = t: VarType | t != MetaData witness Int16

  /** The element name XmlSettings files use for the values of a type. */
  function ForeignTag(t: ForeignType): (tag: string)
    ensures |tag| > 0
  {
    match t
    case Int16 => "Int16"
    case Int32 => "int"
    case Int64 => "long"
    case UInt16 => "UInt16"
    case UInt32 => "UInt32"
    case UInt64 => "UInt64"
    case Single => "float"
    case Double => "double"
    case String => "string"
    case ByteArray => "byte"
    case Boolean => "boolean"
    case _ => assert false; "_"
  }

  /** Different types are read from different tags. */
  lemma ForeignTagInjective(t: ForeignType, u: ForeignType)
    requires ForeignTag(t) == ForeignTag(u)
    ensures t == u
  {
  }

  /** `SelectNodes` on the element children of `//body/{tag}`: the variable elements of every section named tag, in document order. */
  function Selected(doc: ForeignDoc, tag: string): seq<ForeignVar>
  {
    if doc == [] then []
    else Selected(doc[..|doc| - 1], tag) + (if doc[|doc| - 1].tag == tag then doc[|doc| - 1].vars else [])
  }

  /** A variable is selected exactly when it lies in some section named tag. */
  lemma {:induction false} SelectedMembers(doc: ForeignDoc, tag: string, x: ForeignVar)
    ensures x in Selected(doc, tag) <==> exists s :: s in doc && s.tag == tag && x in s.vars
  {
    if doc != [] {
      var init := doc[..|doc| - 1];
      assert doc == init + [doc[|doc| - 1]];
      SelectedMembers(init, tag, x);
    }
  }

  /** The child nodes of one variable element, each paired with the element. */
  function Children(x: ForeignVar): (ps: seq<(ForeignVar, string)>)
    ensures |ps| == |x.children| && forall k :: 0 <= k < |ps| ==> ps[k] == (x, x.children[k])
  {
    seq(|x.children|, k requires 0 <= k < |x.children| => (x, x.children[k]))
  }

  /** What the two loops of an extractor visit: every child node of every selected element, in order. */
  function AllChildren(xs: seq<ForeignVar>): seq<(ForeignVar, string)>
  {
    if xs == [] then [] else AllChildren(xs[..|xs| - 1]) + Children(xs[|xs| - 1])
  }

  /** A pair is visited exactly when it is a selected element and the text of one of its child nodes. */
  lemma {:induction false} AllChildrenMembers(xs: seq<ForeignVar>, p: (ForeignVar, string))
    ensures p in AllChildren(xs) <==> p.0 in xs && p.1 in p.0.children
  {
    if xs != [] {
      var init := xs[..|xs| - 1];
      var last := xs[|xs| - 1];
      assert xs == init + [last];
      AllChildrenMembers(init, p);
      if p in Children(last) {
        var k :| 0 <= k < |last.children| && Children(last)[k] == p;
      }
      if p.0 == last && p.1 in last.children {
        var k :| 0 <= k < |last.children| && last.children[k] == p.1;
        assert Children(last)[k] == p;
      }
    }
  }

  /** The children of the first g elements are visited first. */
  lemma {:induction false} AllChildrenPrefix(xs: seq<ForeignVar>, g: nat)
    requires g <= |xs|
    ensures |AllChildren(xs[..g])| <= |AllChildren(xs)| && AllChildren(xs)[..|AllChildren(xs[..g])|] == AllChildren(xs[..g])
  {
    if g < |xs| {
      var init := xs[..|xs| - 1];
      AllChildrenPrefix(init, g);
      assert init[..g] == xs[..g];
    } else {
      assert xs[..g] == xs;
    }
  }

  // ---------------------------------------------------------------- one record

  /**
   * Convert.ToUInt16/32/64 and BitConverter.GetBytes for a type of w bytes: the bytes, least
   * significant first, of the number the text denotes; FormatException or OverflowException
   * when the text is not a number of the type's range.
   */
  function UnsignedBytes(s: string, w: nat): (r: Outcome<seq<byte>>)
    ensures r.Ok? <==> DecimalText.ParseInt(s, 0, Pow256(w) - 1).Ok?
    ensures r.Ok? ==> |r.value| == w && FromLittleEndian(r.value) == DecimalText.ParseInt(s, 0, Pow256(w) - 1).value
    ensures r.Threw? ==> r.error == FormatError || r.error == OverflowError
  {
    match DecimalText.ParseInt(s, 0, Pow256(w) - 1)
    case Threw(e) => Threw(e)
    case Ok(n) => FromToLittleEndian(n, w); Ok(ToLittleEndian(n, w))
  }

  /** The decimal text of a number of the range reads back as that number's bytes. */
  lemma UnsignedBytesOfShow(n: nat, w: nat)
    requires n < Pow256(w)
    ensures UnsignedBytes(DecimalText.ShowNat(n), w) == Ok(ToLittleEndian(n, w))
  {
    assert DecimalText.ShowInt(n) == DecimalText.ShowNat(n);
    DecimalText.ParseShowInt(n, 0, Pow256(w) - 1);
  }

  /** The bytes an extractor makes of a text: UnsignedBytes for the unsigned types, and for the others what the XML backend's GetAllX does. */
  function ForeignBytes(t: ForeignType, s: string, ft: MarkupDoc.FloatText): (r: Outcome<seq<byte>>)
    ensures r.Ok? && (IsSigned(t) || IsUnsigned(t)) ==> |r.value| == Width(t)
    ensures r.Threw? && !IsFloating(t) ==> r.error == FormatError || r.error == OverflowError
  {
    if IsUnsigned(t) then UnsignedBytes(s, Width(t)) else MarkupDoc.TextBytes(t, s, ft)
  }

  /**
   * What ToString() writes for a value, an extractor reads back as the bytes SSM stores for that
   * value (floats, whose text form is not modelled, and byte arrays aside).
   */
  lemma ForeignBytesOfShow(t: ForeignType, v: Value, ft: MarkupDoc.FloatText)
    requires !IsFloating(t) && t != ByteArray && Fits(t, v)
    ensures ForeignBytes(t, MarkupDoc.ShowValue(t, v, ft), ft) == Ok(EntryBytes(t, v))
  {
    if IsUnsigned(t) {
      UnsignedBytesOfShow(v.n, Width(t));
    } else {
      MarkupDoc.TextBytesOfShow(t, v, ft);
    }
  }

  /**
   * The DataEntry made of child node `text` of element x: the value is converted first, then the
   * `default` attribute, whose absence throws NullReferenceException; group "default", and the
   * element's name as both name and description.
   */
  function ChildEntry(t: ForeignType, x: ForeignVar, text: string, ft: MarkupDoc.FloatText): (r: Outcome<DataEntry>)
    ensures r.Ok? <==> ForeignBytes(t, text, ft).Ok? && x.default.Some? && ForeignBytes(t, x.default.value, ft).Ok?
    ensures ForeignBytes(t, text, ft).Ok? && x.default.None? ==> r == Threw(NullReference)
    ensures r.Ok? ==> (r.value.variableType == t && r.value.name == x.name &&
                       r.value.group == "default" && r.value.description == x.name)
    ensures r.Ok? ==> Ok(r.value.value) == ForeignBytes(t, text, ft) && Ok(r.value.default) == ForeignBytes(t, x.default.value, ft)
  {
    match ForeignBytes(t, text, ft)
    case Threw(e) => Threw(e)
    case Ok(vb) =>
      match x.default
      case None => Threw(NullReference)
      case Some(d) =>
        match ForeignBytes(t, d, ft)
        case Threw(e) => Threw(e)
        case Ok(db) => Ok(DataEntry(t, x.name, "default", vb, db, x.name))
  }

  /** The record of each visited child node, in order. */
  function ChildEntries(t: ForeignType, ps: seq<(ForeignVar, string)>, ft: MarkupDoc.FloatText): (os: seq<Outcome<DataEntry>>)
    ensures |os| == |ps| && forall k :: 0 <= k < |ps| ==> os[k] == ChildEntry(t, ps[k].0, ps[k].1, ft)
  {
    seq(|ps|, k requires 0 <= k < |ps| => ChildEntry(t, ps[k].0, ps[k].1, ft))
  }

  /** The records of the visited child nodes; the first exception ends the extractor. */
  function ChildRecords(t: ForeignType, ps: seq<(ForeignVar, string)>, ft: MarkupDoc.FloatText): Outcome<seq<DataEntry>>
  {
    Sequence(ChildEntries(t, ps, ft))
  }

  /** The child nodes the loops have visited before child i of element g. */
  function Visited(xs: seq<ForeignVar>, g: nat, i: nat): seq<(ForeignVar, string)>
    requires g < |xs| && i <= |xs[g].children|
  {
    AllChildren(xs[..g]) + Children(xs[g])[..i]
  }

  /** The visited child nodes are a prefix of all of them; the next one is child i of element g. */
  lemma VisitedPrefix(xs: seq<ForeignVar>, g: nat, i: nat)
    requires g < |xs| && i <= |xs[g].children|
    ensures |Visited(xs, g, i)| <= |AllChildren(xs)| && AllChildren(xs)[..|Visited(xs, g, i)|] == Visited(xs, g, i)
    ensures i < |xs[g].children| ==>
      |Visited(xs, g, i)| < |AllChildren(xs)| && AllChildren(xs)[|Visited(xs, g, i)|] == (xs[g], xs[g].children[i])
    ensures i < |xs[g].children| ==> Visited(xs, g, i + 1) == Visited(xs, g, i) + [(xs[g], xs[g].children[i])]
    ensures i == |xs[g].children| ==> Visited(xs, g, i) == AllChildren(xs[..g + 1])
  {
    var a := AllChildren(xs[..g]);
    var cs := Children(xs[g]);
    AllChildrenPrefix(xs, g + 1);
    assert xs[..g + 1][..g] == xs[..g];
    assert AllChildren(xs[..g + 1]) == a + cs;
    if i < |cs| {
      assert cs[..i + 1] == cs[..i] + [cs[i]];
    } else {
      assert cs[..i] == cs;
    }
  }

  /** The loops start element g with the children of the elements before it visited. */
  lemma VisitedStart(xs: seq<ForeignVar>, g: nat)
    requires g < |xs|
    ensures Visited(xs, g, 0) == AllChildren(xs[..g])
  {
    assert Children(xs[g])[..0] == [];
  }

  /** After the last child of element g, the children of the first g + 1 elements are visited. */
  lemma VisitedEnd(xs: seq<ForeignVar>, g: nat)
    requires g < |xs|
    ensures Visited(xs, g, |xs[g].children|) == AllChildren(xs[..g + 1])
  {
    VisitedPrefix(xs, g, |xs[g].children|);
  }

  /**
   * One step of the loops of an extractor: the next child's record either ends the extractor with
   * its exception or is appended to the records so far.
   */
  lemma ChildRecordsStep(t: ForeignType, xs: seq<ForeignVar>, g: nat, i: nat, acc: seq<DataEntry>, ft: MarkupDoc.FloatText)
    requires g < |xs| && i < |xs[g].children| && ChildRecords(t, Visited(xs, g, i), ft) == Ok(acc)
    ensures var e := ChildEntry(t, xs[g], xs[g].children[i], ft);
      (e.Threw? ==> ChildRecords(t, AllChildren(xs), ft) == Threw(e.error)) &&
      (e.Ok? ==> ChildRecords(t, Visited(xs, g, i + 1), ft) == Ok(acc + [e.value]))
  {
    var v := Visited(xs, g, i);
    var p := (xs[g], xs[g].children[i]);
    VisitedPrefix(xs, g, i);
    if ChildEntry(t, p.0, p.1, ft).Threw? {
      ChildRecordsFirstThrow(t, AllChildren(xs), |v|, ft);
    } else {
      ChildRecordsSnoc(t, v, p, ft);
    }
  }

  /** When the child nodes before position j all give records and the one at j throws, the run throws that. */
  lemma ChildRecordsFirstThrow(t: ForeignType, ps: seq<(ForeignVar, string)>, j: nat, ft: MarkupDoc.FloatText)
    requires j < |ps| && ChildRecords(t, ps[..j], ft).Ok? && ChildEntry(t, ps[j].0, ps[j].1, ft).Threw?
    ensures ChildRecords(t, ps, ft) == Threw(ChildEntry(t, ps[j].0, ps[j].1, ft).error)
  {
    var os := ChildEntries(t, ps, ft);
    assert os[..j] == ChildEntries(t, ps[..j], ft);
    SequenceFirstThrow(os, j);
  }

  /** One more child node that gives a record: it follows the records so far. */
  lemma ChildRecordsSnoc(t: ForeignType, ps: seq<(ForeignVar, string)>, p: (ForeignVar, string), ft: MarkupDoc.FloatText)
    requires ChildRecords(t, ps, ft).Ok? && ChildEntry(t, p.0, p.1, ft).Ok?
    ensures ChildRecords(t, ps + [p], ft) == Ok(ChildRecords(t, ps, ft).value + [ChildEntry(t, p.0, p.1, ft).value])
  {
    var os := ChildEntries(t, ps, ft);
    var o := ChildEntry(t, p.0, p.1, ft);
    assert ChildEntries(t, ps + [p], ft) == os + [o];
    SequenceSnoc(os, o);
  }

  /** A run of child nodes that returns holds exactly the records of those nodes. */
  lemma ChildRecordsMembers(t: ForeignType, ps: seq<(ForeignVar, string)>, es: seq<DataEntry>, ft: MarkupDoc.FloatText, e: DataEntry)
    requires ChildRecords(t, ps, ft) == Ok(es)
    ensures e in es <==> exists k :: 0 <= k < |ps| && ChildEntry(t, ps[k].0, ps[k].1, ft) == Ok(e)
  {
    var os := ChildEntries(t, ps, ft);
    SequenceListing(os);
    if e in es {
      var k :| 0 <= k < |es| && es[k] == e;
      assert os[k] == Ok(es[k]);
    }
    if exists k :: 0 <= k < |ps| && ChildEntry(t, ps[k].0, ps[k].1, ft) == Ok(e) {
      var k :| 0 <= k < |ps| && ChildEntry(t, ps[k].0, ps[k].1, ft) == Ok(e);
      assert os[k] == Ok(es[k]);
    }
  }

  // ---------------------------------------------------------------- the extractors

  /**
   * GetAllInt16 ... GetAllBooleans: null when no element lies under `//body/{tag}`; otherwise one
   * record per child node of each selected element, or the first exception.
   */
  function ForeignRecords(doc: ForeignDoc, t: ForeignType, ft: MarkupDoc.FloatText): (r: Pass)
    ensures r == Ok(None) <==> Selected(doc, ForeignTag(t)) == []
  {
    var xs := Selected(doc, ForeignTag(t));
    if xs == [] then Ok(None)
    else
      match ChildRecords(t, AllChildren(xs), ft)
      case Threw(e) => Threw(e)
      case Ok(es) => Ok(Some(es))
  }

  /** Before the first element, no child node has been visited and no record read. */
  lemma NothingVisited(t: ForeignType, xs: seq<ForeignVar>, ft: MarkupDoc.FloatText)
    ensures ChildRecords(t, AllChildren(xs[..0]), ft) == Ok([])
  {
    assert xs[..0] == [];
  }

  /** When some element is selected, the extractor's answer is that of its child nodes' records. */
  lemma ForeignRecordsOfChildren(doc: ForeignDoc, t: ForeignType, ft: MarkupDoc.FloatText, o: Outcome<seq<DataEntry>>)
    requires Selected(doc, ForeignTag(t)) != []
    requires ChildRecords(t, AllChildren(Selected(doc, ForeignTag(t))), ft) == o
    ensures ForeignRecords(doc, t, ft) == (if o.Threw? then Threw(o.error) else Ok(Some(o.value)))
  {
  }

  /**
   * When an extractor returns a list, a record is in it exactly when some child node of some
   * element under a section of the type's tag yields it.
   */
  lemma ForeignRecordsMembers(doc: ForeignDoc, t: ForeignType, ft: MarkupDoc.FloatText, e: DataEntry)
    requires ForeignRecords(doc, t, ft).Ok? && ForeignRecords(doc, t, ft).value.Some?
    ensures var xs := Selected(doc, ForeignTag(t));
      e in ForeignRecords(doc, t, ft).value.value <==>
      exists x, text :: x in xs && text in x.children && ChildEntry(t, x, text, ft) == Ok(e)
  {
    var xs := Selected(doc, ForeignTag(t));
    var es := ForeignRecords(doc, t, ft).value.value;
    assert ChildRecords(t, AllChildren(xs), ft) == Ok(es);
    if e in es {
      ChildRecordsSound(t, xs, es, ft, e);
    }
    if exists x, text :: x in xs && text in x.children && ChildEntry(t, x, text, ft) == Ok(e) {
      var x, text :| x in xs && text in x.children && ChildEntry(t, x, text, ft) == Ok(e);
      ChildRecordsComplete(t, xs, es, ft, x, text);
    }
  }

  /** Every record of a listing comes from a child node of one of the elements. */
  lemma ChildRecordsSound(t: ForeignType, xs: seq<ForeignVar>, es: seq<DataEntry>, ft: MarkupDoc.FloatText, e: DataEntry)
    requires ChildRecords(t, AllChildren(xs), ft) == Ok(es) && e in es
    ensures exists x, text :: x in xs && text in x.children && ChildEntry(t, x, text, ft) == Ok(e)
  {
    var ps := AllChildren(xs);
    ChildRecordsMembers(t, ps, es, ft, e);
    var k :| 0 <= k < |ps| && ChildEntry(t, ps[k].0, ps[k].1, ft) == Ok(e);
    AllChildrenMembers(xs, ps[k]);
  }

  /** The record of every child node of every element is in a listing that returns. */
  lemma ChildRecordsComplete(t: ForeignType, xs: seq<ForeignVar>, es: seq<DataEntry>, ft: MarkupDoc.FloatText,
                             x: ForeignVar, text: string)
    requires ChildRecords(t, AllChildren(xs), ft) == Ok(es) && x in xs && text in x.children
    ensures ChildEntry(t, x, text, ft).Ok? && ChildEntry(t, x, text, ft).value in es
  {
    var ps := AllChildren(xs);
    AllChildrenMembers(xs, (x, text));
    var k :| 0 <= k < |ps| && ps[k] == (x, text);
    var os := ChildEntries(t, ps, ft);
    SequenceListing(os);
    assert os[k] == Ok(es[k]);
  }

  /** The order of the eleven tasks of GetAllTypes. */
  const ForeignOrder: seq<ForeignType> := [Int16, Int32, Int64, UInt16, UInt32, UInt64, Single, Double, String, ByteArray, Boolean]

  /** Every type of an XmlSettings file has its task. */
  lemma ForeignOrderComplete(t: ForeignType)
    ensures exists k :: 0 <= k < |ForeignOrder| && ForeignOrder[k] == t
  {
    match t
    case Int16 => assert ForeignOrder[0] == t;
    case Int32 => assert ForeignOrder[1] == t;
    case Int64 => assert ForeignOrder[2] == t;
    case UInt16 => assert ForeignOrder[3] == t;
    case UInt32 => assert ForeignOrder[4] == t;
    case UInt64 => assert ForeignOrder[5] == t;
    case Single => assert ForeignOrder[6] == t;
    case Double => assert ForeignOrder[7] == t;
    case String => assert ForeignOrder[8] == t;
    case ByteArray => assert ForeignOrder[9] == t;
    case Boolean => assert ForeignOrder[10] == t;
  }

  /** The extractor of a type, as a function of the type. */
  function PassOf(doc: ForeignDoc, ft: MarkupDoc.FloatText): ForeignType -> Pass
  {
    (t: ForeignType) => ForeignRecords(doc, t, ft)
  }

  /** What the eleven extractors return, in task order. */
  function ForeignPasses(doc: ForeignDoc, ft: MarkupDoc.FloatText): (ps: seq<Pass>)
    ensures |ps| == |ForeignOrder|
  {
    Map(PassOf(doc, ft), ForeignOrder)
  }

  /**
   * GetAllTypes: the lists of the extractors that returned one, one after another; each task
   * swallows its exception, so an extractor that throws adds nothing.
   */
  function Collected(doc: ForeignDoc, ft: MarkupDoc.FloatText): seq<DataEntry>
  {
    Flatten(Present(ForeignPasses(doc, ft)))
  }

  /**
   * A record is collected exactly when the extractor of its type returned a list and some child
   * node under that type's tag yields it, whatever the other extractors do.
   */
  lemma CollectedMembers(doc: ForeignDoc, ft: MarkupDoc.FloatText, e: DataEntry)
    ensures e in Collected(doc, ft) <==>
      exists t: ForeignType :: ForeignRecords(doc, t, ft).Ok? && ForeignRecords(doc, t, ft).value.Some? &&
        e in ForeignRecords(doc, t, ft).value.value
  {
    var ps := ForeignPasses(doc, ft);
    FlattenPresentMembers(ps, e);
    forall k | 0 <= k < |ps|
      ensures ps[k] == ForeignRecords(doc, ForeignOrder[k], ft)
    {
      MapAt(PassOf(doc, ft), ForeignOrder, k);
    }
    if exists t: ForeignType :: ForeignRecords(doc, t, ft).Ok? && ForeignRecords(doc, t, ft).value.Some? &&
        e in ForeignRecords(doc, t, ft).value.value {
      var t: ForeignType :| ForeignRecords(doc, t, ft).Ok? && ForeignRecords(doc, t, ft).value.Some? &&
        e in ForeignRecords(doc, t, ft).value.value;
      ForeignOrderComplete(t);
    }
  }

  /**
   * Every collected record has group "default", its element's name as both name and description,
   * and the type of the tag it was found under.
   */
  lemma CollectedShape(doc: ForeignDoc, ft: MarkupDoc.FloatText, e: DataEntry)
    requires e in Collected(doc, ft)
    ensures e.group == "default" && e.name == e.description && e.variableType != MetaData
    ensures exists x, text ::
              x in Selected(doc, ForeignTag(e.variableType)) && text in x.children &&
              ChildEntry(e.variableType, x, text, ft) == Ok(e)
  {
    CollectedMembers(doc, ft, e);
    var t: ForeignType :| ForeignRecords(doc, t, ft).Ok? && ForeignRecords(doc, t, ft).value.Some? &&
      e in ForeignRecords(doc, t, ft).value.value;
    ForeignRecordsMembers(doc, t, ft, e);
    var x, text :| x in Selected(doc, ForeignTag(t)) && text in x.children && ChildEntry(t, x, text, ft) == Ok(e);
  }

  // ---------------------------------------------------------------- the calls of Migrate

  /** The import events of a list of records, in order (GetAllTypes never puts null in it). */
  function ImportsOf(es: seq<DataEntry>): (ev: seq<Event>)
    ensures |ev| == |es| && forall k :: 0 <= k < |es| ==> ev[k] == Event(Destination, ImportDataEntry(es[k]))
  {
    seq(|es|, k requires 0 <= k < |es| => Event(Destination, ImportDataEntry(es[k])))
  }

  /** Every call Migrate makes on the new SSM file in the try block, Open before it, when none throws. */
  function XmlPlan(es: seq<DataEntry>): (plan: seq<Event>)
    ensures |plan| == |es| + 2
    ensures plan[0] == Event(Destination, Open) && plan[|es| + 1] == Event(Destination, UpdateXmlSettingsMigrationStatus)
    ensures forall k :: 0 <= k < |es| ==> plan[k + 1] == Event(Destination, ImportDataEntry(es[k]))
  {
    [Event(Destination, Open)] + ImportsOf(es) + [Event(Destination, UpdateXmlSettingsMigrationStatus)]
  }

  /**
   * The calls Migrate makes given f, the first call of the plan that throws: only Open when Open
   * throws (it precedes the try block); otherwise the calls up to the first that throws, and then
   * Close, from the finally block.
   */
  function XmlCalls(plan: seq<Event>, f: Option<nat>): seq<Event>
    requires 0 < |plan| && (f.Some? ==> f.value < |plan|)
  {
    if f == Some(0) then plan[..1] else plan[..Made(f, plan)] + [Event(Destination, Close)]
  }

  /**
   * What Migrate returns once the file is loaded: Open's exception, unwrapped; otherwise Close's
   * exception, which replaces any other; otherwise the wrapped exception of the try block, if any.
   */
  function XmlOutcome(dst: Store, base: nat, plan: seq<Event>, f: Option<nat>): Outcome<()>
    requires 0 < |plan| && (f.Some? ==> f.value < |plan|)
  {
    if f == Some(0) then dst.answer(base, Open)
    else
      var c := dst.answer(base + Made(f, plan), Close);
      if c.Threw? then c else if f.None? then Ok(()) else Threw(MigrationFailed)
  }

  /** The import events of a list import exactly its records, each once, in order. */
  lemma {:induction false} ImportsOfRecords(es: seq<DataEntry>)
    ensures ImportedRecords(ImportsOf(es)) == es
  {
    if es != [] {
      var init := es[..|es| - 1];
      var ev := ImportsOf(es);
      assert ev[..|ev| - 1] == ImportsOf(init);
      ImportsOfRecords(init);
    }
  }

  /** The calls of the plan import exactly the collected records, each once and in order. */
  lemma XmlPlanImportsEachRecordOnce(es: seq<DataEntry>)
    ensures ImportedRecords(XmlPlan(es)) == es
  {
    var open := [Event(Destination, Open)];
    var stamp := [Event(Destination, UpdateXmlSettingsMigrationStatus)];
    var im := ImportsOf(es);
    calc {
      ImportedRecords(XmlPlan(es));
      ImportedRecords(open + im + stamp);
      { ImportedRecordsAppend(open + im, stamp); NoImportsNoRecords(stamp); }
      ImportedRecords(open + im);
      { ImportedRecordsAppend(open, im); NoImportsNoRecords(open); }
      ImportedRecords(im);
      { ImportsOfRecords(es); }
      es;
    }
  }

  /**
   * Once Open has returned, the destination is closed on every path, exactly once and as the last
   * call; when Open throws, it is the only call.
   */
  lemma ClosedOnceAfterOpen(es: seq<DataEntry>, f: Option<nat>)
    requires f.Some? ==> f.value < |XmlPlan(es)|
    ensures var calls := XmlCalls(XmlPlan(es), f);
      calls[0] == Event(Destination, Open) &&
      (f == Some(0) ==> calls == [Event(Destination, Open)]) &&
      (f != Some(0) ==> calls[|calls| - 1] == Event(Destination, Close) && Event(Destination, Close) !in calls[..|calls| - 1])
  {
    var plan := XmlPlan(es);
    var calls := XmlCalls(plan, f);
    if f != Some(0) {
      var m := Made(f, plan);
      assert calls[..|calls| - 1] == plan[..m];
      forall k | 0 <= k < m
        ensures plan[k] != Event(Destination, Close)
      {
        if 1 <= k <= |es| {
          assert plan[(k - 1) + 1] == Event(Destination, ImportDataEntry(es[k - 1]));
        }
      }
    }
  }

  /** The calls Migrate makes are a prefix of the plan, of m calls, then Close unless Open threw. */
  lemma XmlCallsShape(es: seq<DataEntry>, f: Option<nat>)
    requires f.Some? ==> f.value < |XmlPlan(es)|
    ensures var plan := XmlPlan(es);
      var m := if f == Some(0) then 1 else Made(f, plan);
      var calls := XmlCalls(plan, f);
      1 <= m <= |plan| && calls[..m] == plan[..m] &&
      |calls| == (if f == Some(0) then m else m + 1) &&
      (f != Some(0) ==> calls[m] == Event(Destination, Close)) &&
      ImportedRecords(calls) == ImportedRecords(plan[..m])
  {
    var plan := XmlPlan(es);
    var m := if f == Some(0) then 1 else Made(f, plan);
    if f != Some(0) {
      var close := [Event(Destination, Close)];
      assert XmlCalls(plan, f) == plan[..m] + close;
      ImportedRecordsAppend(plan[..m], close);
      NoImportsNoRecords(close);
    }
  }

  /** Only the last call of the plan stamps the migration. */
  lemma XmlPlanStampLast(es: seq<DataEntry>)
    ensures forall k :: 0 <= k < |XmlPlan(es)| ==> (XmlPlan(es)[k].call.UpdateXmlSettingsMigrationStatus? <==> k == |es| + 1)
  {
    var plan := XmlPlan(es);
    forall k | 0 <= k < |plan| && k != |es| + 1
      ensures !plan[k].call.UpdateXmlSettingsMigrationStatus?
    {
      if 1 <= k {
        assert plan[(k - 1) + 1] == Event(Destination, ImportDataEntry(es[k - 1]));
      }
    }
  }

  /**
   * The migration is stamped at most once, and exactly when every record was imported first:
   * when no call of the plan throws or the stamp itself is the first to.
   */
  lemma StampedAfterEveryImport(es: seq<DataEntry>, f: Option<nat>)
    requires f.Some? ==> f.value < |XmlPlan(es)|
    ensures var calls := XmlCalls(XmlPlan(es), f);
      (Event(Destination, UpdateXmlSettingsMigrationStatus) in calls <==> f.None? || f.value == |es| + 1) &&
      (forall k :: 0 <= k < |calls| && calls[k].call.UpdateXmlSettingsMigrationStatus? ==> k == |es| + 1) &&
      (Event(Destination, UpdateXmlSettingsMigrationStatus) in calls ==> ImportedRecords(calls) == es)
  {
    var plan := XmlPlan(es);
    var calls := XmlCalls(plan, f);
    StampsInCalls(es, f);
    if f.None? || f.value == |es| + 1 {
      StampReached(es, f);
    }
  }

  /** A stamp among the calls made is the plan's last call, and it was reached. */
  lemma StampsInCalls(es: seq<DataEntry>, f: Option<nat>)
    requires f.Some? ==> f.value < |XmlPlan(es)|
    ensures var calls := XmlCalls(XmlPlan(es), f);
      forall k :: 0 <= k < |calls| && calls[k].call.UpdateXmlSettingsMigrationStatus? ==>
        k == |es| + 1 && k < (if f == Some(0) then 1 else Made(f, XmlPlan(es)))
  {
    var plan := XmlPlan(es);
    var calls := XmlCalls(plan, f);
    var m := if f == Some(0) then 1 else Made(f, plan);
    XmlCallsShape(es, f);
    XmlPlanStampLast(es);
    forall k | 0 <= k < |calls| && calls[k].call.UpdateXmlSettingsMigrationStatus?
      ensures k == |es| + 1 && k < m
    {
      if k < m {
        assert calls[k] == calls[..m][k];
      }
    }
  }

  /** When the whole plan was reached, the stamp is among the calls and every record was imported. */
  lemma StampReached(es: seq<DataEntry>, f: Option<nat>)
    requires f.None? || f.value == |es| + 1
    ensures var calls := XmlCalls(XmlPlan(es), f);
      Event(Destination, UpdateXmlSettingsMigrationStatus) in calls && ImportedRecords(calls) == es
  {
    var plan := XmlPlan(es);
    var calls := XmlCalls(plan, f);
    var m := Made(f, plan);
    XmlCallsShape(es, f);
    assert calls[|es| + 1] == calls[..m][|es| + 1];
    assert plan[..m] == plan;
    XmlPlanImportsEachRecordOnce(es);
  }

  /** Whatever fails, the records imported are the first collected records, in order. */
  lemma FailureKeepsImportedPrefix(es: seq<DataEntry>, f: Option<nat>)
    requires f.Some? ==> f.value < |XmlPlan(es)|
    ensures var done := ImportedRecords(XmlCalls(XmlPlan(es), f));
      |done| <= |es| && es[..|done|] == done
  {
    var plan := XmlPlan(es);
    var m := if f == Some(0) then 1 else Made(f, plan);
    XmlCallsShape(es, f);
    XmlPlanImportsEachRecordOnce(es);
    ImportedRecordsPrefix(plan, m);
  }

  /** A migration that returns has imported every collected record and stamped the file. */
  lemma ReturnedMigrationImportedAll(dst: Store, base: nat, es: seq<DataEntry>)
    requires XmlOutcome(dst, base, XmlPlan(es), FirstThrow(dst, dst, base, XmlPlan(es))).Ok?
    ensures var calls := XmlCalls(XmlPlan(es), FirstThrow(dst, dst, base, XmlPlan(es)));
      ImportedRecords(calls) == es && Event(Destination, UpdateXmlSettingsMigrationStatus) in calls
  {
    StampedAfterEveryImport(es, FirstThrow(dst, dst, base, XmlPlan(es)));
  }

  // ---------------------------------------------------------------- the class

  class XmlSettingsMigration {
    const xmlFilePath: string
    const exportFile: CrossMigration.SsmFile
    /** `_xmlDoc`: empty until LoadXML reads the file. */
    var doc: ForeignDoc
    /** The text forms of float and double values. */
    const ft: MarkupDoc.FloatText

    /** The constructor once its check has passed (see NewXmlSettingsMigration). */
    constructor (xmlFilePath: string, exportFile: CrossMigration.SsmFile, ft: MarkupDoc.FloatText)
      ensures this.xmlFilePath == xmlFilePath && this.exportFile == exportFile && this.ft == ft && doc == []
    {
      this.xmlFilePath := xmlFilePath;
      this.exportFile := exportFile;
      this.ft := ft;
      doc := [];
    }

    /** LoadXML: `file` is what XmlDocument.Load makes of the file, None when it throws. */
    method LoadXml(file: Option<ForeignDoc>) returns (r: Outcome<()>)
      modifies this
      ensures file.None? ==> r == Threw(LoadFailed) && doc == old(doc)
      ensures file.Some? ==> r == Ok(()) && doc == file.value
    {
      if file.None? {
        return Threw(LoadFailed);
      }
      doc := file.value;
      return Ok(());
    }

    /** GetAllInt16 ... GetAllBooleans, for the type t. */
    method GetAll(t: ForeignType) returns (r: Pass)
      ensures r == ForeignRecords(doc, t, ft)
    {
      var xs := Selected(doc, ForeignTag(t));
      if |xs| == 0 {
        return Ok(None);
      }
      var list: seq<DataEntry> := [];
      var g := 0;
      NothingVisited(t, xs, ft);
      while g < |xs|
        invariant 0 <= g <= |xs|
        invariant ChildRecords(t, AllChildren(xs[..g]), ft) == Ok(list)
      {
        var part := ReadElement(t, xs, g, list);
        if part.Threw? {
          ForeignRecordsOfChildren(doc, t, ft, part);
          return Threw(part.error);
        }
        list := part.value;
        g := g + 1;
      }
      assert xs[..g] == xs;
      ForeignRecordsOfChildren(doc, t, ft, Ok(list));
      return Ok(Some(list));
    }

    /**
     * The inner loop of an extractor: the records of the child nodes of element g appended to
     * `acc`, which holds those of the elements before it; the first exception is the extractor's.
     */
    method ReadElement(t: ForeignType, xs: seq<ForeignVar>, g: nat, acc: seq<DataEntry>) returns (r: Outcome<seq<DataEntry>>)
      requires g < |xs| && ChildRecords(t, AllChildren(xs[..g]), ft) == Ok(acc)
      ensures r.Threw? ==> ChildRecords(t, AllChildren(xs), ft) == r
      ensures r.Ok? ==> ChildRecords(t, AllChildren(xs[..g + 1]), ft) == r
    {
      var x := xs[g];
      var list := acc;
      VisitedStart(xs, g);
      var i := 0;
      while i < |x.children|
        invariant 0 <= i <= |x.children|
        invariant ChildRecords(t, Visited(xs, g, i), ft) == Ok(list)
      {
        var e := ReadChild(t, xs, g, i, list);
        if e.Threw? {
          return Threw(e.error);
        }
        list := list + [e.value];
        i := i + 1;
      }
      VisitedEnd(xs, g);
      return Ok(list);
    }

    /** One pass of the inner loop: the DataEntry of child i of element g. */
    method ReadChild(t: ForeignType, xs: seq<ForeignVar>, g: nat, i: nat, acc: seq<DataEntry>) returns (e: Outcome<DataEntry>)
      requires g < |xs| && i < |xs[g].children| && ChildRecords(t, Visited(xs, g, i), ft) == Ok(acc)
      ensures e.Threw? ==> ChildRecords(t, AllChildren(xs), ft) == Threw(e.error)
      ensures e.Ok? ==> ChildRecords(t, Visited(xs, g, i + 1), ft) == Ok(acc + [e.value])
    {
      ChildRecordsStep(t, xs, g, i, acc, ft);
      e := ChildEntry(t, xs[g], xs[g].children[i], ft);
    }

    /** GetAllTypes: the eleven tasks, run one after another. */
    method GetAllTypes() returns (es: seq<DataEntry>)
      ensures es == Collected(doc, ft)
    {
      ghost var ps := ForeignPasses(doc, ft);
      assert ps[..0] == [];
      es := RunTask([], 0, ps);
      es := RunTask(es, 1, ps);
      es := RunTask(es, 2, ps);
      es := RunTask(es, 3, ps);
      es := RunTask(es, 4, ps);
      es := RunTask(es, 5, ps);
      es := RunTask(es, 6, ps);
      es := RunTask(es, 7, ps);
      es := RunTask(es, 8, ps);
      es := RunTask(es, 9, ps);
      es := RunTask(es, 10, ps);
      assert ps[..11] == ps;
    }

    /**
     * The task of the k-th type: `try { if (GetAllX() != null) dataList.AddRange(GetAllX()); } catch { }`.
     * `ps` are the results of all the extractors, and `acc` what the first k tasks collected.
     */
    method RunTask(acc: seq<DataEntry>, k: nat, ghost ps: seq<Pass>) returns (r: seq<DataEntry>)
      requires k < |ps| && ps == ForeignPasses(doc, ft) && acc == Flatten(Present(ps[..k]))
      ensures r == Flatten(Present(ps[..k + 1]))
    {
      MapAt(PassOf(doc, ft), ForeignOrder, k);
      TakeSnoc(ps, k);
      PresentSnoc(ps[..k], ps[k]);
      var part := GetAll(ForeignOrder[k]);
      match part {
        case Ok(Some(xs)) =>
          FlattenSnoc(Present(ps[..k]), xs);
          r := acc + xs;
        case _ =>
          r := acc;
      }
    }

    /**
     * Migrate, with `file` the result of loading the XmlSettings file and `dst` the SSM object
     * made from the export file.
     */
    method Migrate(file: Option<ForeignDoc>, dst: Store) returns (r: Outcome<()>)
      requires dst.role == Destination
      modifies this, dst.journal
      ensures file.None? ==> r == Threw(LoadFailed) && dst.journal.events == old(dst.journal.events)
      ensures file.Some? ==> doc == file.value
      ensures file.Some? ==>
        var plan := XmlPlan(Collected(file.value, ft));
        var base := |old(dst.journal.events)|;
        var f := FirstThrow(dst, dst, base, plan);
        dst.journal.events == old(dst.journal.events) + XmlCalls(plan, f) &&
        r == XmlOutcome(dst, base, plan, f)
    {
      var loaded := LoadXml(file);
      if loaded.Threw? {
        return loaded;
      }
      ghost var start := dst.journal.events;
      ghost var plan := XmlPlan(Collected(doc, ft));
      assert plan[..0] == [];
      var o := Step(dst, Open, dst, dst, start, plan, 0);
      if o.Threw? {
        return o;
      }
      var entries := GetAllTypes();
      r := TryThenClose(entries, dst, start);
    }
  }

  /**
   * Migrate after Open returned: the try block, whose exception is wrapped, then Close, whose
   * exception replaces any other.
   */
  method TryThenClose(entries: seq<DataEntry>, dst: Store, ghost start: seq<Event>) returns (r: Outcome<()>)
    requires dst.role == Destination && Returned(dst, start, XmlPlan(entries), 1)
    modifies dst.journal
    ensures var plan := XmlPlan(entries);
      var f := FirstThrow(dst, dst, |start|, plan);
      f != Some(0) && dst.journal.events == start + XmlCalls(plan, f) && r == XmlOutcome(dst, |start|, plan, f)
  {
    ghost var plan := XmlPlan(entries);
    ghost var f := FirstThrow(dst, dst, |start|, plan);
    var tried := ImportAndStamp(entries, dst, start);
    r := if tried.Threw? then Threw(MigrationFailed) else Ok(());
    ghost var before := dst.journal.events;
    var c := dst.Perform(Close);
    if c.Threw? {
      r := c;
    }
    CloseAfterTry(dst, start, plan, f, before, tried, c, r);
  }

  /** The journal and the result once Close followed the try block. */
  lemma CloseAfterTry(dst: Store, start: seq<Event>, plan: seq<Event>, f: Option<nat>, before: seq<Event>,
                      tried: Outcome<()>, c: Outcome<()>, r: Outcome<()>)
    requires 0 < |plan| && (f.Some? ==> 1 <= f.value < |plan|)
    requires before == start + plan[..Made(f, plan)] && (tried.Ok? <==> f.None?)
    requires c == dst.answer(|before|, Close)
    requires r == if c.Threw? then c else if tried.Threw? then Threw(MigrationFailed) else Ok(())
    ensures before + [Event(Destination, Close)] == start + XmlCalls(plan, f)
    ensures r == XmlOutcome(dst, |start|, plan, f)
  {
  }

  /** The plan's first n calls were made from journal `start` on, and they all returned. */
  ghost predicate Returned(dst: Store, start: seq<Event>, plan: seq<Event>, n: nat)
    reads dst.journal
  {
    n <= |plan| && dst.journal.events == start + plan[..n] &&
    forall k :: 0 <= k < n ==> AnswerOf(dst, dst, |start| + k, plan[k]).Ok?
  }

  /**
   * The try block of Migrate after Open returned: each record imported, then the stamp; it stops
   * at the first call that throws.
   */
  method ImportAndStamp(entries: seq<DataEntry>, dst: Store, ghost start: seq<Event>) returns (r: Outcome<()>)
    requires dst.role == Destination && Returned(dst, start, XmlPlan(entries), 1)
    modifies dst.journal
    ensures var plan := XmlPlan(entries);
      var f := FirstThrow(dst, dst, |start|, plan);
      (r.Ok? ==> f.None? && dst.journal.events == start + plan) &&
      (r.Threw? ==> f.Some? && 1 <= f.value && dst.journal.events == start + plan[..f.value + 1])
  {
    ghost var plan := XmlPlan(entries);
    var i := 0;
    while i < |entries|
      invariant 0 <= i <= |entries|
      invariant Returned(dst, start, plan, i + 1)
    {
      var o := Step(dst, ImportDataEntry(entries[i]), dst, dst, start, plan, i + 1);
      if o.Threw? {
        return o;
      }
      i := i + 1;
    }
    r := Step(dst, UpdateXmlSettingsMigrationStatus, dst, dst, start, plan, |entries| + 1);
    if r.Ok? {
      FirstThrowAfter(dst, dst, |start|, plan, |plan|);
      assert plan[..|plan|] == plan;
    }
  }

  /**
   * `new XmlSettingsMigration(path, exportFile)`: throws unless the file exists (`fileExists`)
   * and Utilities.IsFileXML accepts it (`isXml`).
   */
  method NewXmlSettingsMigration(xmlFilePath: string, exportFile: CrossMigration.SsmFile, fileExists: bool, isXml: bool,
                                 ft: MarkupDoc.FloatText) returns (r: Outcome<XmlSettingsMigration>)
    ensures r.Threw? <==> !(fileExists && isXml)
    ensures r.Threw? ==> r.error == InvalidSourceFile
    ensures r.Ok? ==> (fresh(r.value) && r.value.xmlFilePath == xmlFilePath && r.value.exportFile == exportFile &&
                       r.value.ft == ft && r.value.doc == [])
  {
    if !(fileExists && isXml) {
      return Threw(InvalidSourceFile);
    }
    var m := new XmlSettingsMigration(xmlFilePath, exportFile, ft);
    return Ok(m);
  }
}

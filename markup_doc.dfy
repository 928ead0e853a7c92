/**
 * The document behind the XML backend, as values: the children of the `SSM` root element are the
 * type headings, a heading's children are groups, a group's children are variables, and a
 * variable's children are small elements (`value`, `default`, `description`) holding text.
 * The XPath queries of XML.cs become searches of this tree; the text forms of the values are the
 * decimal and `True`/`False` forms of DecimalText.
 */
module MarkupDoc {
  import opened Wrappers
  import opened Bytes
  import opened Data
  import Utf8
  import DecimalText

  /** An element holding text only: `value`, `default` or `description`. */
  datatype Leaf = Leaf(name: string, text: string)
  /** A variable element, named after the variable. */
  datatype Variable = Variable(name: string, fields: seq<Leaf>)
  /** A group element, named after the group. */
  datatype Group = Group(name: string, vars: seq<Variable>)
  /** A type heading, named after the type (`_MetaData`, `Int16`, ..., `Boolean`). */
  datatype Heading = Heading(name: string, groups: seq<Group>)
  /** The children of the `SSM` root element, in document order. */
  type Doc = seq<Heading>

  /** float/double `ToString()` of an IEEE bit pattern, and `Convert.ToSingle/ToDouble` of a text (for a width of 4 or 8). */
  datatype FloatText = FloatText(show: seq<byte> -> string, parse: (nat, string) -> Outcome<seq<byte>>)

  /** The types XML.cs has methods for: every type but the unsigned ones. */
  predicate InMarkup(t: VarType)
  {
    !IsUnsigned(t)
  }

  // ---------------------------------------------------------------- names

  predicate NameStart(c: char)
  {
    'A' <= c <= 'Z' || 'a' <= c <= 'z' || c == '_'
  }

  predicate NameChar(c: char)
  {
    NameStart(c) || '0' <= c <= '9' || c == '-' || c == '.'
  }

  /**
   * A name that is both a valid element name for CreateElement and a plain name test in the
   * XPath queries the methods build with String.Format.
   */
  predicate PlainName(s: string)
  {
    |s| > 0 && NameStart(s[0]) && forall k :: 0 <= k < |s| ==> NameChar(s[k])
  }

  // ---------------------------------------------------------------- headings

  /** No two headings share a name: AddToHeadingNode creates a heading only when none exists. */
  predicate HeadingsUnique(doc: Doc)
  {
    forall i, j :: 0 <= i < j < |doc| ==> doc[i].name != doc[j].name
  }

  predicate HasHeading(doc: Doc, h: string)
  {
    exists k :: 0 <= k < |doc| && doc[k].name == h
  }

  /** `DocumentElement[h]`: the first child of the root named h. */
  function FindHeading(doc: Doc, h: string): (k: nat)
    requires HasHeading(doc, h)
    ensures k < |doc| && doc[k].name == h
    ensures forall j :: 0 <= j < k ==> doc[j].name != h
  {
    if doc[0].name == h then 0
    else
      assert HasHeading(doc[1..], h) by {
        var k :| 0 <= k < |doc| && doc[k].name == h;
        assert doc[1..][k - 1].name == h;
      }
      1 + FindHeading(doc[1..], h)
  }

  /** `//SSM/{h}/<any>`: the groups of the heading named h, none when there is no such heading. */
  function GroupsOf(doc: Doc, h: string): seq<Group>
  {
    if HasHeading(doc, h) then doc[FindHeading(doc, h)].groups else []
  }

  /** With unique headings, the groups of h are those of the one heading named h. */
  lemma GroupsOfAt(doc: Doc, h: string, k: nat)
    requires HeadingsUnique(doc) && k < |doc| && doc[k].name == h
    ensures HasHeading(doc, h) && FindHeading(doc, h) == k && GroupsOf(doc, h) == doc[k].groups
  {
  }

  /** The document with the groups of heading h replaced. */
  function WithGroups(doc: Doc, h: string, gs: seq<Group>): (r: Doc)
    requires HasHeading(doc, h)
    ensures |r| == |doc|
  {
    doc[FindHeading(doc, h) := Heading(h, gs)]
  }

  lemma WithGroupsOf(doc: Doc, h: string, gs: seq<Group>, m: string)
    requires HeadingsUnique(doc) && HasHeading(doc, h)
    ensures HeadingsUnique(WithGroups(doc, h, gs))
    ensures GroupsOf(WithGroups(doc, h, gs), m) == if m == h then gs else GroupsOf(doc, m)
  {
    var r := WithGroups(doc, h, gs);
    var k := FindHeading(doc, h);
    if HasHeading(doc, m) {
      GroupsOfAt(r, m, FindHeading(doc, m));
    }
    if m == h {
      GroupsOfAt(r, h, k);
    }
  }

  // ---------------------------------------------------------------- groups and variables

  predicate HasGroup(gs: seq<Group>, g: string)
  {
    exists k :: 0 <= k < |gs| && gs[k].name == g
  }

  /** `SelectNodes("//SSM/{h}/{g}")[0]`: the first group of that name. */
  function FirstGroup(gs: seq<Group>, g: string): (k: nat)
    requires HasGroup(gs, g)
    ensures k < |gs| && gs[k].name == g
    ensures forall j :: 0 <= j < k ==> gs[j].name != g
  {
    if gs[0].name == g then 0
    else
      assert HasGroup(gs[1..], g) by {
        var k :| 0 <= k < |gs| && gs[k].name == g;
        assert gs[1..][k - 1].name == g;
      }
      1 + FirstGroup(gs[1..], g)
  }

  predicate HasVar(xs: seq<Variable>, name: string)
  {
    exists k :: 0 <= k < |xs| && xs[k].name == name
  }

  function FirstVar(xs: seq<Variable>, name: string): (k: nat)
    requires HasVar(xs, name)
    ensures k < |xs| && xs[k].name == name
    ensures forall j :: 0 <= j < k ==> xs[j].name != name
  {
    if xs[0].name == name then 0
    else
      assert HasVar(xs[1..], name) by {
        var k :| 0 <= k < |xs| && xs[k].name == name;
        assert xs[1..][k - 1].name == name;
      }
      1 + FirstVar(xs[1..], name)
  }

  /** Variable v of group g is named `name`: one node `//SSM/{h}/<any>/{name}` selects. */
  predicate At(gs: seq<Group>, name: string, g: int, v: int)
  {
    0 <= g < |gs| && 0 <= v < |gs[g].vars| && gs[g].vars[v].name == name
  }

  /** `SelectNodes("//SSM/{h}/<any>/{name}").Count > 0`. */
  predicate Exists(gs: seq<Group>, name: string)
  {
    exists g, v :: 0 <= g < |gs| && 0 <= v < |gs[g].vars| && At(gs, name, g, v)
  }

  /** `SelectNodes("//SSM/{h}/<any>/{name}").Count == 1`. */
  predicate ExactlyOne(gs: seq<Group>, name: string)
  {
    exists g, v :: 0 <= g < |gs| && 0 <= v < |gs[g].vars| && At(gs, name, g, v) &&
      forall g', v' :: 0 <= g' < |gs| && 0 <= v' < |gs[g'].vars| && At(gs, name, g', v') ==> g' == g && v' == v
  }

  /** The first node in document order that `//SSM/{h}/<any>/{name}` selects. */
  function Locate(gs: seq<Group>, name: string): (p: (nat, nat))
    requires Exists(gs, name)
    ensures At(gs, name, p.0, p.1)
    ensures forall g, v :: At(gs, name, g, v) ==> p.0 < g || (p.0 == g && p.1 <= v)
  {
    if HasVar(gs[0].vars, name) then (0, FirstVar(gs[0].vars, name))
    else
      assert forall g, v :: At(gs, name, g, v) ==> g > 0 && At(gs[1..], name, g - 1, v);
      assert Exists(gs[1..], name) by {
        var g, v :| At(gs, name, g, v);
        assert At(gs[1..], name, g - 1, v);
      }
      var p := Locate(gs[1..], name);
      assert forall g, v :: At(gs[1..], name, g, v) ==> At(gs, name, g + 1, v);
      (p.0 + 1, p.1)
  }

  /** When exactly one node matches, Locate finds that one. */
  lemma LocateOne(gs: seq<Group>, name: string, g: nat, v: nat)
    requires ExactlyOne(gs, name) && At(gs, name, g, v)
    ensures Exists(gs, name) && Locate(gs, name) == (g, v)
  {
  }

  /** The variable a Set or Get acts on: the only node of that name, if exactly one matches. */
  function Found(gs: seq<Group>, name: string): (r: Option<Variable>)
    ensures r.Some? <==> ExactlyOne(gs, name)
    ensures r.Some? ==> r.value.name == name
  {
    if ExactlyOne(gs, name) then
      var p := Locate(gs, name);
      Some(gs[p.0].vars[p.1])
    else None
  }

  function VarAt(doc: Doc, h: string, name: string): Option<Variable>
  {
    Found(GroupsOf(doc, h), name)
  }

  /** Two group lists hold the same variables named `name`, at the same places. */
  ghost predicate SameNamed(a: seq<Group>, b: seq<Group>, name: string)
  {
    (forall g, v :: At(a, name, g, v) <==> At(b, name, g, v)) &&
    (forall g, v :: At(a, name, g, v) ==> a[g].vars[v] == b[g].vars[v])
  }

  lemma FoundSame(a: seq<Group>, b: seq<Group>, name: string)
    requires SameNamed(a, b, name)
    ensures Found(a, name) == Found(b, name)
  {
    if ExactlyOne(a, name) {
      var g, v :| At(a, name, g, v) && forall g', v' :: At(a, name, g', v') ==> g' == g && v' == v;
      assert ExactlyOne(b, name);
      LocateOne(a, name, g, v);
      LocateOne(b, name, g, v);
    }
  }

  // ---------------------------------------------------------------- leaves

  /** `SelectSingleNode(n).InnerText`: the text of the first child named n; None for null. */
  function FieldText(fs: seq<Leaf>, n: string): Option<string>
  {
    if fs == [] then None
    else if fs[0].name == n then Some(fs[0].text)
    else FieldText(fs[1..], n)
  }

  /** `SelectSingleNode(n).InnerText = text`. */
  function SetField(fs: seq<Leaf>, n: string, text: string): seq<Leaf>
  {
    if fs == [] then []
    else if fs[0].name == n then [Leaf(n, text)] + fs[1..]
    else [fs[0]] + SetField(fs[1..], n, text)
  }

  /** Assigning the text of child n changes what child n reads and nothing else. */
  lemma {:induction false} SetFieldText(fs: seq<Leaf>, n: string, text: string, m: string)
    requires FieldText(fs, n).Some?
    ensures FieldText(SetField(fs, n, text), m) == if m == n then Some(text) else FieldText(fs, m)
  {
    if fs[0].name != n {
      SetFieldText(fs[1..], n, text, m);
      assert SetField(fs, n, text)[1..] == SetField(fs[1..], n, text);
    } else {
      assert SetField(fs, n, text)[1..] == fs[1..];
    }
  }

  /** The children AddX gives a new variable: value and default both hold the text, then the description. */
  function NewVar(name: string, text: string, desc: string): (x: Variable)
    ensures x.name == name
    ensures FieldText(x.fields, "value") == Some(text) && FieldText(x.fields, "default") == Some(text)
    ensures FieldText(x.fields, "description") == Some(desc)
  {
    var fs := [Leaf("value", text), Leaf("default", text), Leaf("description", desc)];
    assert fs[1..][1..] == [Leaf("description", desc)];
    assert FieldText(fs[1..][1..], "description") == Some(desc);
    assert FieldText(fs[1..], "description") == Some(desc);
    Variable(name, fs)
  }

  // ---------------------------------------------------------------- values as text

  /** The text AddX and SetX write: `value.ToString()`, or Encoding.UTF8.GetString for a byte array. */
  function ShowValue(t: VarType, v: Value, ft: FloatText): string
  {
    match v
    case IntValue(i) => DecimalText.ShowInt(i)
    case UIntValue(n) => DecimalText.ShowNat(n)
    case FloatValue(bits) => ft.show(bits)
    case StringValue(s) => s
    case BytesValue(b) => Utf8.Decode(b)
    case BoolValue(f) => DecimalText.ShowBool(f)
  }

  /** The smallest and largest value of a signed type. */
  function SignedMin(t: VarType): int { -(Pow256(Width(t)) / 2) }
  function SignedMax(t: VarType): int { Pow256(Width(t)) / 2 - 1 }

  lemma SignedBounds(t: VarType, i: int)
    requires IsSigned(t)
    ensures InSignedRange(i, Width(t)) <==> SignedMin(t) <= i <= SignedMax(t)
  {
    Pow256Even(Width(t));
    HalfRange(Pow256(Width(t)), i);
  }

  /** A positive power of 256 is even. */
  lemma Pow256Even(w: nat)
    requires w >= 1
    ensures Pow256(w) % 2 == 0
  {
    var y := 128 * Pow256(w - 1);
    assert Pow256(w) == 2 * y;
  }

  /** For an even p, -p <= 2i < p says that i lies between -(p/2) and p/2 - 1. */
  lemma HalfRange(p: int, i: int)
    requires p >= 0 && p % 2 == 0
    ensures -p <= 2 * i < p <==> -(p / 2) <= i <= p / 2 - 1
  {
    var q: int := p / 2;
    assert p == 2 * q;
  }

  /** What GetX makes of the text it reads: Convert.ToInt16/32/64, Convert.ToSingle/Double, Convert.ToBoolean, UTF8.GetBytes. */
  function ParseText(t: VarType, s: string, ft: FloatText): (r: Outcome<Value>)
    requires InMarkup(t)
    ensures r.Ok? && IsSigned(t) ==> Fits(t, r.value)
    ensures r.Ok? && r.value.IntValue? ==> IsSigned(t) && InSignedRange(r.value.i, Width(t))
  {
    match t
    case Int16 | Int32 | Int64 =>
      (match DecimalText.ParseInt(s, SignedMin(t), SignedMax(t))
       case Threw(e) => Threw(e)
       case Ok(i) => SignedBounds(t, i); Ok(IntValue(i)))
    case Single | Double =>
      (match ft.parse(Width(t), s)
       case Threw(e) => Threw(e)
       case Ok(bits) => Ok(FloatValue(bits)))
    case Boolean =>
      (match DecimalText.ParseBool(s)
       case Threw(e) => Threw(e)
       case Ok(f) => Ok(BoolValue(f)))
    case ByteArray => Ok(BytesValue(Utf8.Encode(s)))
    case MetaData | String => Ok(StringValue(s))
    case _ => assert false; Ok(StringValue(s))
  }

  /** The text a value is written as reads back as that value (floats aside, whose text form is not modelled). */
  lemma ParseShowValue(t: VarType, v: Value, ft: FloatText)
    requires InMarkup(t) && t != MetaData && !IsFloating(t) && t != ByteArray && Fits(t, v)
    ensures ParseText(t, ShowValue(t, v, ft), ft) == Ok(v)
  {
    match t
    case Int16 | Int32 | Int64 =>
      SignedBounds(t, v.i);
      DecimalText.ParseShowInt(v.i, SignedMin(t), SignedMax(t));
    case Boolean => DecimalText.ParseShowBool(v.flag);
    case String =>
  }

  /** A byte array goes in through GetString and out through GetBytes: it survives when it is UTF-8 text. */
  lemma ParseShowBytes(s: string, ft: FloatText)
    ensures ParseText(ByteArray, ShowValue(ByteArray, BytesValue(Utf8.Encode(s)), ft), ft) == Ok(BytesValue(Utf8.Encode(s)))
  {
    Utf8.DecodeEncode(s);
  }

  /** The zero a GetX returns when no single node matches; null (None) for GetString and GetByteArray. */
  function Missing(t: VarType): (r: Option<Value>)
    requires InMarkup(t) && t != MetaData
    ensures r.Some? ==> Fits(t, r.value)
    ensures r.None? <==> t == String || t == ByteArray
  {
    match t
    case Int16 | Int32 | Int64 => Some(IntValue(0))
    case Single | Double => Some(FloatValue(ZeroBits(Width(t))))
    case Boolean => Some(BoolValue(false))
    case String | ByteArray => None
    case _ => assert false; None
  }

  /** `xmlNode.SelectSingleNode("value").InnerText` of the one matching node; None when not exactly one matches. */
  function ValueText(doc: Doc, h: string, name: string): (r: Outcome<Option<string>>)
    ensures r.Ok? && r.value.None? <==> VarAt(doc, h, name).None?
    ensures r.Threw? ==> r.error == NullReference
  {
    match VarAt(doc, h, name)
    case None => Ok(None)
    case Some(x) =>
      match FieldText(x.fields, "value")
      case None => Threw(NullReference)
      case Some(s) => Ok(Some(s))
  }

  /** GetInt16 ... GetBoolean. */
  function GetValue(doc: Doc, t: VarType, name: string, ft: FloatText): (r: Outcome<Option<Value>>)
    requires InMarkup(t) && t != MetaData
    ensures VarAt(doc, TableName(t), name).None? ==> r == Ok(Missing(t))
  {
    match ValueText(doc, TableName(t), name)
    case Threw(e) => Threw(e)
    case Ok(None) => Ok(Missing(t))
    case Ok(Some(s)) =>
      match ParseText(t, s, ft)
      case Threw(e) => Threw(e)
      case Ok(v) => Ok(Some(v))
  }

  // ---------------------------------------------------------------- Add

  /** Appends x to the first group named g, or to a new group g appended last. */
  function AddToGroup(gs: seq<Group>, g: string, x: Variable): seq<Group>
  {
    if HasGroup(gs, g) then
      var k := FirstGroup(gs, g);
      gs[k := gs[k].(vars := gs[k].vars + [x])]
    else gs + [Group(g, [x])]
  }

  /**
   * The document after AddX(name, value, description, group) when the name is new: the heading
   * (found, or created) is moved to the end of the root by `_xmlDocBody.AppendChild`, and the
   * variable is appended to the first group of that name, which is created when missing.
   */
  function AddSpec(doc: Doc, h: string, g: string, x: Variable): (r: Doc)
    ensures |r| == if HasHeading(doc, h) then |doc| else |doc| + 1
    ensures r[|r| - 1].name == h
  {
    if HasHeading(doc, h) then
      var k := FindHeading(doc, h);
      doc[..k] + doc[k + 1..] + [Heading(h, AddToGroup(doc[k].groups, g, x))]
    else doc + [Heading(h, AddToGroup([], g, x))]
  }

  /** The heading is reused or created once, every other heading keeps its groups, and heading names stay unique. */
  lemma AddSpecHeadings(doc: Doc, h: string, g: string, x: Variable, m: string)
    requires HeadingsUnique(doc)
    ensures HeadingsUnique(AddSpec(doc, h, g, x))
    ensures GroupsOf(AddSpec(doc, h, g, x), m) == if m == h then AddToGroup(GroupsOf(doc, h), g, x) else GroupsOf(doc, m)
  {
    AddSpecUnique(doc, h, g, x);
    if m != h {
      AddSpecOthers(doc, h, g, x, m);
    }
  }

  /** AddSpec keeps the other headings in their order, before the heading it moves to the end. */
  lemma AddSpecLayout(doc: Doc, h: string, g: string, x: Variable)
    ensures var r := AddSpec(doc, h, g, x);
      HasHeading(doc, h) ==> forall j :: 0 <= j < |r| - 1 ==> r[j] == if j < FindHeading(doc, h) then doc[j] else doc[j + 1]
    ensures var r := AddSpec(doc, h, g, x);
      !HasHeading(doc, h) ==> forall j :: 0 <= j < |r| - 1 ==> r[j] == doc[j]
  {
  }

  /** After AddSpec the heading names are still unique, and h holds x in group g. */
  lemma AddSpecUnique(doc: Doc, h: string, g: string, x: Variable)
    requires HeadingsUnique(doc)
    ensures HeadingsUnique(AddSpec(doc, h, g, x))
    ensures GroupsOf(AddSpec(doc, h, g, x), h) == AddToGroup(GroupsOf(doc, h), g, x)
  {
    AddSpecLayout(doc, h, g, x);
    var r := AddSpec(doc, h, g, x);
    assert HeadingsUnique(r);
    GroupsOfAt(r, h, |r| - 1);
  }

  /** The groups of a heading other than h are the same after AddSpec. */
  lemma AddSpecOthers(doc: Doc, h: string, g: string, x: Variable, m: string)
    requires HeadingsUnique(doc) && m != h
    ensures GroupsOf(AddSpec(doc, h, g, x), m) == GroupsOf(doc, m)
  {
    AddSpecLayout(doc, h, g, x);
    AddSpecUnique(doc, h, g, x);
    var r := AddSpec(doc, h, g, x);
    if HasHeading(doc, m) {
      var j := FindHeading(doc, m);
      if HasHeading(doc, h) && j > FindHeading(doc, h) {
        GroupsOfAt(r, m, j - 1);
      } else {
        GroupsOfAt(r, m, j);
      }
    }
  }

  /** Where a name occurs after AddToGroup: where it did before, and, for x's name, at x's new place. */
  lemma AddToGroupAt(gs: seq<Group>, g: string, x: Variable, m: string, i: int, v: int)
    ensures At(AddToGroup(gs, g, x), m, i, v) <==>
      At(gs, m, i, v) ||
      (m == x.name && (if HasGroup(gs, g) then i == FirstGroup(gs, g) && v == |gs[i].vars|
                       else i == |gs| && v == 0))
  {
  }

  lemma AddToGroupSame(gs: seq<Group>, g: string, x: Variable, m: string)
    requires m != x.name
    ensures SameNamed(gs, AddToGroup(gs, g, x), m)
  {
    var r := AddToGroup(gs, g, x);
    forall i, v ensures At(gs, m, i, v) <==> At(r, m, i, v) {
      AddToGroupAt(gs, g, x, m, i, v);
    }
  }

  /** After adding a new name, exactly one node has it, and it is the new variable. */
  lemma AddToGroupFound(gs: seq<Group>, g: string, x: Variable)
    requires !Exists(gs, x.name)
    ensures Found(AddToGroup(gs, g, x), x.name) == Some(x)
  {
    var r := AddToGroup(gs, g, x);
    var i: nat, v: nat := if HasGroup(gs, g) then FirstGroup(gs, g) else |gs|, if HasGroup(gs, g) then |gs[FirstGroup(gs, g)].vars| else 0;
    forall i', v' ensures At(r, x.name, i', v') ==> i' == i && v' == v {
      AddToGroupAt(gs, g, x, x.name, i', v');
    }
    AddToGroupAt(gs, g, x, x.name, i, v);
    LocateOne(r, x.name, i, v);
  }

  // ---------------------------------------------------------------- Set

  /** The group list with variable v of group i replaced by y. */
  function ReplaceVar(gs: seq<Group>, i: nat, v: nat, y: Variable): seq<Group>
    requires i < |gs| && v < |gs[i].vars|
  {
    gs[i := gs[i].(vars := gs[i].vars[v := y])]
  }

  /** Replacing a variable by one of the same name moves no name, and changes no other variable. */
  lemma ReplaceVarSame(gs: seq<Group>, i: nat, v: nat, y: Variable, m: string)
    requires i < |gs| && v < |gs[i].vars| && y.name == gs[i].vars[v].name
    ensures forall g, w :: At(gs, m, g, w) <==> At(ReplaceVar(gs, i, v, y), m, g, w)
    ensures m != y.name ==> SameNamed(gs, ReplaceVar(gs, i, v, y), m)
  {
  }

  /**
   * SetX(name, value) as text: false and no change unless exactly one node matches; a
   * NullReferenceException when that node has no `value` child; otherwise the `value` child's
   * text is replaced.
   */
  function SetSpec(doc: Doc, h: string, name: string, text: string): (Outcome<bool>, Doc)
  {
    var gs := GroupsOf(doc, h);
    if !ExactlyOne(gs, name) then (Ok(false), doc)
    else
      var p := Locate(gs, name);
      var x := gs[p.0].vars[p.1];
      if FieldText(x.fields, "value").None? then (Threw(NullReference), doc)
      else
        assert HasHeading(doc, h);
        (Ok(true), WithGroups(doc, h, ReplaceVar(gs, p.0, p.1, x.(fields := SetField(x.fields, "value", text)))))
  }

  /**
   * Set acts only when exactly one node matches; then only that variable's `value` text changes,
   * its `default` and `description` stay, and every other variable reads as before.
   */
  lemma SetSpecEffect(doc: Doc, h: string, name: string, text: string, h': string, m: string)
    requires HeadingsUnique(doc)
    ensures var (r, d) := SetSpec(doc, h, name, text);
      HeadingsUnique(d) &&
      (r == Ok(true) <==> VarAt(doc, h, name).Some? && FieldText(VarAt(doc, h, name).value.fields, "value").Some?) &&
      (r == Threw(NullReference) <==> VarAt(doc, h, name).Some? && FieldText(VarAt(doc, h, name).value.fields, "value").None?) &&
      (r != Ok(true) ==> d == doc) &&
      ((h', m) != (h, name) ==> VarAt(d, h', m) == VarAt(doc, h', m)) &&
      (r == Ok(true) ==> VarAt(d, h, name) == Some(VarAt(doc, h, name).value.(fields := SetField(VarAt(doc, h, name).value.fields, "value", text))))
  {
    var gs := GroupsOf(doc, h);
    if ExactlyOne(gs, name) {
      var p := Locate(gs, name);
      var x := gs[p.0].vars[p.1];
      if FieldText(x.fields, "value").Some? {
        var y := x.(fields := SetField(x.fields, "value", text));
        var gs' := ReplaceVar(gs, p.0, p.1, y);
        assert HasHeading(doc, h);
        WithGroupsOf(doc, h, gs', h');
        ReplaceVarSame(gs, p.0, p.1, y, m);
        if h' == h && m != name {
          FoundSame(gs, gs', m);
        }
        ReplaceVarSame(gs, p.0, p.1, y, name);
        assert At(gs', name, p.0, p.1);
        assert ExactlyOne(gs', name);
        LocateOne(gs', name, p.0, p.1);
        WithGroupsOf(doc, h, gs', h);
      }
    }
  }

  /** A value written by Set reads back through Get (floats and non-UTF-8 byte arrays aside). */
  lemma SetThenGet(doc: Doc, t: VarType, name: string, v: Value, ft: FloatText)
    requires HeadingsUnique(doc) && InMarkup(t) && t != MetaData && !IsFloating(t) && t != ByteArray && Fits(t, v)
    requires SetSpec(doc, TableName(t), name, ShowValue(t, v, ft)).0 == Ok(true)
    ensures GetValue(SetSpec(doc, TableName(t), name, ShowValue(t, v, ft)).1, t, name, ft) == Ok(Some(v))
  {
    var h := TableName(t);
    var text := ShowValue(t, v, ft);
    SetSpecEffect(doc, h, name, text, h, name);
    SetFieldText(VarAt(doc, h, name).value.fields, "value", text, "value");
    ParseShowValue(t, v, ft);
  }

  // ---------------------------------------------------------------- records

  /** The bytes GetAllX stores for a text: Convert.ToX then BitConverter.GetBytes, or Encoding.UTF8.GetBytes. */
  function TextBytes(t: VarType, s: string, ft: FloatText): (r: Outcome<seq<byte>>)
    requires InMarkup(t)
    ensures r.Ok? <==> ParseText(t, s, ft).Ok?
    ensures r.Ok? && (IsSigned(t) || t == Boolean) ==> |r.value| == (if t == Boolean then 1 else Width(t))
  {
    match ParseText(t, s, ft)
    case Threw(e) => Threw(e)
    case Ok(v) => Ok(EntryBytes(t, v))
  }

  /** What GetAllX records for a value that AddX or SetX wrote: the bytes of that value. */
  lemma TextBytesOfShow(t: VarType, v: Value, ft: FloatText)
    requires InMarkup(t) && !IsFloating(t) && t != ByteArray && Fits(t, v)
    ensures TextBytes(t, ShowValue(t, v, ft), ft) == Ok(EntryBytes(t, v))
  {
    if t != MetaData {
      ParseShowValue(t, v, ft);
    }
  }

  /**
   * The record GetAllX makes of variable x in group gname. The `value`, `default` and
   * `description` children are read in that order; a missing one throws NullReferenceException
   * and a text Convert rejects throws its exception.
   */
  function EntryOf(t: VarType, gname: string, x: Variable, ft: FloatText): (r: Outcome<DataEntry>)
    requires InMarkup(t)
    ensures FieldText(x.fields, "value").None? ==> r == Threw(NullReference)
    ensures r.Ok? ==> r.value.variableType == t && r.value.name == x.name && r.value.group == gname
    ensures r.Ok? ==> TextBytes(t, FieldText(x.fields, "value").value, ft) == Ok(r.value.value)
    ensures r.Ok? ==> (FieldText(x.fields, "default").Some? &&
      TextBytes(t, FieldText(x.fields, "default").value, ft) == Ok(r.value.default))
    ensures r.Ok? ==> FieldText(x.fields, "description") == Some(r.value.description)
  {
    match FieldText(x.fields, "value")
    case None => Threw(NullReference)
    case Some(vs) =>
      match TextBytes(t, vs, ft)
      case Threw(e) => Threw(e)
      case Ok(vb) =>
        match FieldText(x.fields, "default")
        case None => Threw(NullReference)
        case Some(ds) =>
          match TextBytes(t, ds, ft)
          case Threw(e) => Threw(e)
          case Ok(db) =>
            match FieldText(x.fields, "description")
            case None => Threw(NullReference)
            case Some(desc) => Ok(DataEntry(t, x.name, gname, vb, db, desc))
  }

  /** A variable AddX created is listed with the bytes of its value as both value and default. */
  lemma EntryOfNewVar(t: VarType, gname: string, name: string, v: Value, desc: string, ft: FloatText)
    requires InMarkup(t) && !IsFloating(t) && t != ByteArray && Fits(t, v)
    ensures EntryOf(t, gname, NewVar(name, ShowValue(t, v, ft), desc), ft) ==
      Ok(DataEntry(t, name, gname, EntryBytes(t, v), EntryBytes(t, v), desc))
  {
    TextBytesOfShow(t, v, ft);
  }

  /** The variables of group gname, each paired with the group's name. */
  function Pairs(gname: string, xs: seq<Variable>): (ps: seq<(string, Variable)>)
    ensures |ps| == |xs| && forall k :: 0 <= k < |xs| ==> ps[k] == (gname, xs[k])
  {
    seq(|xs|, k requires 0 <= k < |xs| => (gname, xs[k]))
  }

  /** Every variable of the groups with its group's name, in document order: what the two loops of GetAllX visit. */
  function AllVars(gs: seq<Group>): seq<(string, Variable)>
  {
    if gs == [] then [] else AllVars(gs[..|gs| - 1]) + Pairs(gs[|gs| - 1].name, gs[|gs| - 1].vars)
  }

  /** A pair is visited exactly when it is some group's name and one of that group's variables. */
  lemma AllVarsMembers(gs: seq<Group>, p: (string, Variable))
    ensures p in AllVars(gs) <==>
      exists g, v :: 0 <= g < |gs| && 0 <= v < |gs[g].vars| && p == (gs[g].name, gs[g].vars[v])
  {
    if p in AllVars(gs) {
      AllVarsSound(gs, p);
    }
    if exists g, v :: 0 <= g < |gs| && 0 <= v < |gs[g].vars| && p == (gs[g].name, gs[g].vars[v]) {
      var g, v :| 0 <= g < |gs| && 0 <= v < |gs[g].vars| && p == (gs[g].name, gs[g].vars[v]);
      AllVarsComplete(gs, g, v);
    }
  }

  /** Every visited pair is some group's name and one of that group's variables. */
  lemma {:induction false} AllVarsSound(gs: seq<Group>, p: (string, Variable))
    requires p in AllVars(gs)
    ensures exists g, v :: 0 <= g < |gs| && 0 <= v < |gs[g].vars| && p == (gs[g].name, gs[g].vars[v])
  {
    var init := gs[..|gs| - 1];
    var last := gs[|gs| - 1];
    if p in AllVars(init) {
      AllVarsSound(init, p);
      var g, v :| 0 <= g < |init| && 0 <= v < |init[g].vars| && p == (init[g].name, init[g].vars[v]);
      assert gs[g] == init[g];
    } else {
      var k :| 0 <= k < |last.vars| && Pairs(last.name, last.vars)[k] == p;
      assert p == (gs[|gs| - 1].name, gs[|gs| - 1].vars[k]);
    }
  }

  /** Every variable of every group is visited, paired with its group's name. */
  lemma {:induction false} AllVarsComplete(gs: seq<Group>, g: nat, v: nat)
    requires g < |gs| && v < |gs[g].vars|
    ensures (gs[g].name, gs[g].vars[v]) in AllVars(gs)
  {
    var init := gs[..|gs| - 1];
    var last := gs[|gs| - 1];
    if g < |init| {
      assert init[g] == gs[g];
      AllVarsComplete(init, g, v);
    } else {
      assert Pairs(last.name, last.vars)[v] == (gs[g].name, gs[g].vars[v]);
    }
  }

  /** The variables of the first g groups are visited first. */
  lemma {:induction false} AllVarsPrefix(gs: seq<Group>, g: nat)
    requires g <= |gs|
    ensures |AllVars(gs[..g])| <= |AllVars(gs)| && AllVars(gs)[..|AllVars(gs[..g])|] == AllVars(gs[..g])
  {
    if g < |gs| {
      var init := gs[..|gs| - 1];
      AllVarsPrefix(init, g);
      assert init[..g] == gs[..g];
    } else {
      assert gs[..g] == gs;
    }
  }

  /** The record of each visited variable, in order. */
  function EntriesOf(t: VarType, ps: seq<(string, Variable)>, ft: FloatText): (os: seq<Outcome<DataEntry>>)
    requires InMarkup(t)
    ensures |os| == |ps| && forall k :: 0 <= k < |ps| ==> os[k] == EntryOf(t, ps[k].0, ps[k].1, ft)
  {
    seq(|ps|, k requires 0 <= k < |ps| => EntryOf(t, ps[k].0, ps[k].1, ft))
  }

  /** The records of the visited variables in order; the first exception stops the listing. */
  function Records(t: VarType, ps: seq<(string, Variable)>, ft: FloatText): Outcome<seq<DataEntry>>
    requires InMarkup(t)
  {
    Sequence(EntriesOf(t, ps, ft))
  }

  /** The variables the two loops of GetAllX have visited before variable i of group g. */
  function Visited(gs: seq<Group>, g: nat, i: nat): seq<(string, Variable)>
    requires g < |gs| && i <= |gs[g].vars|
  {
    AllVars(gs[..g]) + Pairs(gs[g].name, gs[g].vars[..i])
  }

  /** The visited variables are a prefix of all of them; the next one is variable i of group g. */
  lemma VisitedPrefix(gs: seq<Group>, g: nat, i: nat)
    requires g < |gs| && i <= |gs[g].vars|
    ensures |Visited(gs, g, i)| <= |AllVars(gs)| && AllVars(gs)[..|Visited(gs, g, i)|] == Visited(gs, g, i)
    ensures i < |gs[g].vars| ==>
      |Visited(gs, g, i)| < |AllVars(gs)| && AllVars(gs)[|Visited(gs, g, i)|] == (gs[g].name, gs[g].vars[i])
    ensures i < |gs[g].vars| ==> Visited(gs, g, i + 1) == Visited(gs, g, i) + [(gs[g].name, gs[g].vars[i])]
    ensures i == |gs[g].vars| ==> Visited(gs, g, i) == AllVars(gs[..g + 1])
  {
    var a := AllVars(gs[..g]);
    var xs := gs[g].vars;
    AllVarsPrefix(gs, g + 1);
    assert gs[..g + 1][..g] == gs[..g];
    assert AllVars(gs[..g + 1]) == a + Pairs(gs[g].name, xs);
    assert Pairs(gs[g].name, xs)[..i] == Pairs(gs[g].name, xs[..i]);
    if i < |xs| {
      assert Pairs(gs[g].name, xs[..i + 1]) == Pairs(gs[g].name, xs[..i]) + [(gs[g].name, xs[i])];
    } else {
      assert xs[..i] == xs;
    }
  }

  /** One more visited variable: the records so far, then its record or its exception. */
  lemma RecordsSnoc(t: VarType, ps: seq<(string, Variable)>, p: (string, Variable), ft: FloatText)
    requires InMarkup(t)
    ensures Records(t, ps + [p], ft) == Sequence(EntriesOf(t, ps, ft) + [EntryOf(t, p.0, p.1, ft)])
  {
    assert EntriesOf(t, ps + [p], ft) == EntriesOf(t, ps, ft) + [EntryOf(t, p.0, p.1, ft)];
  }

  /** When the variables before position j all give records and the one at j throws, the listing throws that. */
  lemma RecordsFirstThrow(t: VarType, ps: seq<(string, Variable)>, j: nat, ft: FloatText)
    requires InMarkup(t) && j < |ps| && Records(t, ps[..j], ft).Ok? && EntryOf(t, ps[j].0, ps[j].1, ft).Threw?
    ensures Records(t, ps, ft) == Threw(EntryOf(t, ps[j].0, ps[j].1, ft).error)
  {
    var os := EntriesOf(t, ps, ft);
    assert os[..j] == EntriesOf(t, ps[..j], ft);
    SequenceFirstThrow(os, j);
  }

  /**
   * One step of the loops of GetAllX: the next variable's record either ends the listing with its
   * exception or is appended to the records so far.
   */
  lemma RecordsStep(t: VarType, gs: seq<Group>, g: nat, i: nat, acc: seq<DataEntry>, ft: FloatText)
    requires InMarkup(t) && g < |gs| && i < |gs[g].vars| && Records(t, Visited(gs, g, i), ft) == Ok(acc)
    ensures var e := EntryOf(t, gs[g].name, gs[g].vars[i], ft);
      (e.Threw? ==> Records(t, AllVars(gs), ft) == Threw(e.error)) &&
      (e.Ok? ==> Records(t, Visited(gs, g, i + 1), ft) == Ok(acc + [e.value]))
  {
    var v := Visited(gs, g, i);
    var p := (gs[g].name, gs[g].vars[i]);
    VisitedPrefix(gs, g, i);
    if EntryOf(t, p.0, p.1, ft).Threw? {
      RecordsFirstThrow(t, AllVars(gs), |v|, ft);
    } else {
      RecordsSnoc(t, v, p, ft);
      SequenceSnoc(EntriesOf(t, v, ft), EntryOf(t, p.0, p.1, ft));
    }
  }

  /**
   * GetAllX: null when the heading has no groups; otherwise the record of every variable of
   * every group, groups first to last.
   */
  function TypeRecords(doc: Doc, t: VarType, ft: FloatText): (r: Outcome<Option<seq<DataEntry>>>)
    requires InMarkup(t)
    ensures r == Ok(None) <==> GroupsOf(doc, TableName(t)) == []
  {
    var gs := GroupsOf(doc, TableName(t));
    if gs == [] then Ok(None)
    else
      match Records(t, AllVars(gs), ft)
      case Threw(e) => Threw(e)
      case Ok(es) => Ok(Some(es))
  }

  /** The loops of GetAllX start group g with the variables of the groups before it visited. */
  lemma VisitedStart(gs: seq<Group>, g: nat)
    requires g < |gs|
    ensures Visited(gs, g, 0) == AllVars(gs[..g])
  {
    assert gs[g].vars[..0] == [];
  }

  /** What GetAllX returns once the loops have listed every variable, or met an exception. */
  lemma TypeRecordsOfListing(doc: Doc, t: VarType, ft: FloatText, r: Outcome<seq<DataEntry>>)
    requires InMarkup(t) && GroupsOf(doc, TableName(t)) != []
    requires Records(t, AllVars(GroupsOf(doc, TableName(t))), ft) == r
    ensures TypeRecords(doc, t, ft) == match r case Threw(e) => Threw(e) case Ok(es) => Ok(Some(es))
  {
  }

  /** When GetAllX returns a list, a record is in it exactly when some variable of the heading yields it. */
  lemma TypeRecordsMembers(doc: Doc, t: VarType, ft: FloatText, e: DataEntry)
    requires InMarkup(t) && TypeRecords(doc, t, ft).Ok? && TypeRecords(doc, t, ft).value.Some?
    ensures var gs := GroupsOf(doc, TableName(t));
      e in TypeRecords(doc, t, ft).value.value <==>
      exists g, v :: 0 <= g < |gs| && 0 <= v < |gs[g].vars| && EntryOf(t, gs[g].name, gs[g].vars[v], ft) == Ok(e)
  {
    var gs := GroupsOf(doc, TableName(t));
    var ps := AllVars(gs);
    RecordsMembers(t, ps, TypeRecords(doc, t, ft).value.value, ft, e);
    if exists k :: 0 <= k < |ps| && EntryOf(t, ps[k].0, ps[k].1, ft) == Ok(e) {
      var k :| 0 <= k < |ps| && EntryOf(t, ps[k].0, ps[k].1, ft) == Ok(e);
      AllVarsMembers(gs, ps[k]);
      var g, v :| 0 <= g < |gs| && 0 <= v < |gs[g].vars| && ps[k] == (gs[g].name, gs[g].vars[v]);
    }
    if exists g, v :: 0 <= g < |gs| && 0 <= v < |gs[g].vars| && EntryOf(t, gs[g].name, gs[g].vars[v], ft) == Ok(e) {
      var g, v :| 0 <= g < |gs| && 0 <= v < |gs[g].vars| && EntryOf(t, gs[g].name, gs[g].vars[v], ft) == Ok(e);
      AllVarsMembers(gs, (gs[g].name, gs[g].vars[v]));
      var k :| 0 <= k < |ps| && ps[k] == (gs[g].name, gs[g].vars[v]);
    }
  }

  /** A listing that returns holds exactly the records of the listed variables. */
  lemma RecordsMembers(t: VarType, ps: seq<(string, Variable)>, es: seq<DataEntry>, ft: FloatText, e: DataEntry)
    requires InMarkup(t) && Records(t, ps, ft) == Ok(es)
    ensures e in es <==> exists k :: 0 <= k < |ps| && EntryOf(t, ps[k].0, ps[k].1, ft) == Ok(e)
  {
    var os := EntriesOf(t, ps, ft);
    SequenceListing(os);
    assert Sequence(os).value == es;
    if e in es {
      var k :| 0 <= k < |es| && es[k] == e;
      assert os[k] == Ok(es[k]);
    }
    if exists k :: 0 <= k < |ps| && EntryOf(t, ps[k].0, ps[k].1, ft) == Ok(e) {
      var k :| 0 <= k < |ps| && EntryOf(t, ps[k].0, ps[k].1, ft) == Ok(e);
      assert os[k] == Ok(es[k]);
    }
  }

  /** The order in which GetAllTypes appends the lists. */
  type MarkupType = t: VarType | InMarkup(t) witness MetaData

  const MarkupOrder: seq<MarkupType> := [MetaData, Int16, Int32, Int64, Single, Double, String, ByteArray, Boolean]

  /** The GetAllX pass of a type, as a function of the type. */
  function PassOf(doc: Doc, ft: FloatText): MarkupType -> Pass
  {
    (t: MarkupType) => TypeRecords(doc, t, ft)
  }

  /** The passes GetAllTypes makes, one GetAllX per type of `order`. */
  function Passes(doc: Doc, order: seq<MarkupType>, ft: FloatText): (ps: seq<Pass>)
    ensures |ps| == |order|
  {
    Map(PassOf(doc, ft), order)
  }

  /** Pass k is the GetAllX of the k-th type. */
  lemma PassesAt(doc: Doc, order: seq<MarkupType>, k: nat, ft: FloatText)
    requires k < |order|
    ensures Passes(doc, order, ft)[k] == TypeRecords(doc, order[k], ft)
  {
    MapAt(PassOf(doc, ft), order, k);
  }

  /** One more type: its pass follows those of the types before it. */
  lemma PassesSnoc(doc: Doc, order: seq<MarkupType>, k: nat, ft: FloatText)
    requires k < |order|
    ensures Passes(doc, order[..k + 1], ft) == Passes(doc, order[..k], ft) + [TypeRecords(doc, order[k], ft)]
  {
    MapSnoc(PassOf(doc, ft), order, k);
  }

  /** XML's GetAllTypes: the lists of the nine headings in the fixed order. */
  function AllTypesSpec(doc: Doc, ft: FloatText): Outcome<seq<DataEntry>>
  {
    AppendAll(Passes(doc, MarkupOrder, ft))
  }

  /**
   * GetAllTypes throws exactly when one of its passes throws; otherwise it returns, type by
   * type in the fixed order, the lists of the headings that have groups.
   */
  lemma AllTypesCollects(doc: Doc, ft: FloatText)
    ensures AllTypesSpec(doc, ft).Threw? <==> exists k :: 0 <= k < 9 && TypeRecords(doc, MarkupOrder[k], ft).Threw?
    ensures (forall k :: 0 <= k < 9 ==> TypeRecords(doc, MarkupOrder[k], ft).Ok?) ==>
      AllTypesSpec(doc, ft) == Ok(Flatten(Present(Passes(doc, MarkupOrder, ft))))
  {
    var ps := Passes(doc, MarkupOrder, ft);
    forall k | 0 <= k < 9
      ensures ps[k] == TypeRecords(doc, MarkupOrder[k], ft)
    {
      PassesAt(doc, MarkupOrder, k, ft);
    }
    AppendAllFails(ps);
    if forall k :: 0 <= k < 9 ==> TypeRecords(doc, MarkupOrder[k], ft).Ok? {
      AppendAllConcatenates(ps);
    }
  }

  // ---------------------------------------------------------------- Add, read back

  /** Adding a new name makes it readable, as the added variable, and leaves every other read as it was. */
  lemma AddSpecVarAt(doc: Doc, h: string, g: string, x: Variable, h': string, m: string)
    requires HeadingsUnique(doc) && !Exists(GroupsOf(doc, h), x.name)
    ensures VarAt(AddSpec(doc, h, g, x), h', m) == if h' == h && m == x.name then Some(x) else VarAt(doc, h', m)
  {
    AddSpecHeadings(doc, h, g, x, h');
    if h' == h {
      if m == x.name {
        AddToGroupFound(GroupsOf(doc, h), g, x);
      } else {
        AddToGroupSame(GroupsOf(doc, h), g, x, m);
        FoundSame(GroupsOf(doc, h), AddToGroup(GroupsOf(doc, h), g, x), m);
      }
    }
  }

  /** A value AddX wrote reads back through GetX (floats and non-UTF-8 byte arrays aside). */
  lemma AddThenGet(doc: Doc, t: VarType, g: string, name: string, v: Value, desc: string, ft: FloatText)
    requires HeadingsUnique(doc) && InMarkup(t) && t != MetaData && !IsFloating(t) && t != ByteArray && Fits(t, v)
    requires !Exists(GroupsOf(doc, TableName(t)), name)
    ensures GetValue(AddSpec(doc, TableName(t), g, NewVar(name, ShowValue(t, v, ft), desc)), t, name, ft) == Ok(Some(v))
  {
    var x := NewVar(name, ShowValue(t, v, ft), desc);
    AddSpecVarAt(doc, TableName(t), g, x, TableName(t), name);
    ParseShowValue(t, v, ft);
  }

  /** Where AddX puts the new variable: in the first group named g, or in a new last group. */
  lemma AddToGroupPlace(gs: seq<Group>, g: string, x: Variable)
    ensures var r := AddToGroup(gs, g, x);
      exists i, w :: 0 <= i < |r| && 0 <= w < |r[i].vars| && r[i].name == g && r[i].vars[w] == x
  {
    var r := AddToGroup(gs, g, x);
    if HasGroup(gs, g) {
      var k := FirstGroup(gs, g);
      assert r[k].vars[|gs[k].vars|] == x;
    } else {
      assert r[|gs|].vars[0] == x;
    }
  }

  /** After AddX, GetAllX lists the new variable with its group, the bytes of its value and its description. */
  lemma AddThenListed(doc: Doc, t: VarType, g: string, name: string, v: Value, desc: string, ft: FloatText)
    requires HeadingsUnique(doc) && InMarkup(t) && !IsFloating(t) && t != ByteArray && Fits(t, v)
    requires TypeRecords(AddSpec(doc, TableName(t), g, NewVar(name, ShowValue(t, v, ft), desc)), t, ft).Ok?
    ensures var es := TypeRecords(AddSpec(doc, TableName(t), g, NewVar(name, ShowValue(t, v, ft), desc)), t, ft).value;
      es.Some? && DataEntry(t, name, g, EntryBytes(t, v), EntryBytes(t, v), desc) in es.value
  {
    var x := NewVar(name, ShowValue(t, v, ft), desc);
    var d := AddSpec(doc, TableName(t), g, x);
    var gs := GroupsOf(d, TableName(t));
    AddSpecHeadings(doc, TableName(t), g, x, TableName(t));
    AddToGroupPlace(GroupsOf(doc, TableName(t)), g, x);
    var i, w :| 0 <= i < |gs| && 0 <= w < |gs[i].vars| && gs[i].name == g && gs[i].vars[w] == x;
    EntryOfNewVar(t, g, name, v, desc, ft);
    TypeRecordsMembers(d, t, ft, DataEntry(t, name, g, EntryBytes(t, v), EntryBytes(t, v), desc));
  }

  // ---------------------------------------------------------------- DeleteEmptyParents

  /** DeleteEmptyParents as evidently intended: every heading without children goes, the others stay in order. */
  function Prune(doc: Doc): (r: Doc)
    ensures |r| <= |doc|
  {
    if doc == [] then []
    else
      var last := doc[|doc| - 1];
      Prune(doc[..|doc| - 1]) + (if last.groups == [] then [] else [last])
  }

  /** Pruning keeps exactly the headings that have groups, and keeps heading names unique. */
  lemma {:induction false} PruneKeeps(doc: Doc)
    ensures forall y :: y in Prune(doc) <==> y in doc && y.groups != []
    ensures HeadingsUnique(doc) ==> HeadingsUnique(Prune(doc))
  {
    if doc != [] {
      var init := doc[..|doc| - 1];
      var last := doc[|doc| - 1];
      assert forall y :: y in doc <==> y in init || y == last;
      PruneKeeps(init);
      assert HeadingsUnique(doc) ==> forall k :: 0 <= k < |init| ==> init[k].name != last.name;
    }
  }

  /**
   * One step of the pruning loop: with the first m headings pruned into the first n places, the
   * next heading sits at n; dropping it when it has no groups, or passing it otherwise, prunes m + 1.
   */
  lemma PruneStep(d0: Doc, m: nat, doc: Doc)
    requires m < |d0| && doc == Prune(d0[..m]) + d0[m..]
    ensures var n := |Prune(d0[..m])|;
      n < |doc| && doc[n] == d0[m] &&
      (d0[m].groups == [] ==> doc[..n] + doc[n + 1..] == Prune(d0[..m + 1]) + d0[m + 1..] &&
                              n == |Prune(d0[..m + 1])|) &&
      (d0[m].groups != [] ==> doc == Prune(d0[..m + 1]) + d0[m + 1..] && n + 1 == |Prune(d0[..m + 1])|)
  {
    var p := Prune(d0[..m]);
    PruneSnoc(d0, m);
    DropCons(d0, m);
    assert doc[..|p|] == p && doc[|p| + 1..] == d0[m + 1..];
    if d0[m].groups != [] {
      assert doc == (p + [d0[m]]) + d0[m + 1..];
    }
  }

  /** Pruning one more heading appends it when it has groups. */
  lemma PruneSnoc(d0: Doc, m: nat)
    requires m < |d0|
    ensures Prune(d0[..m + 1]) == Prune(d0[..m]) + (if d0[m].groups == [] then [] else [d0[m]])
  {
    assert d0[..m + 1][..m] == d0[..m];
  }

  /**
   * DeleteEmptyParents as written: an index loop that removes an empty child and still advances
   * the index, so the sibling that moves into its place is never looked at.
   */
  function PruneAsWritten(doc: Doc): (r: Doc)
    ensures forall y :: y in r ==> y in doc
    ensures forall y :: y in doc && y.groups != [] ==> y in r
    decreases |doc|
  {
    if doc == [] then []
    else if doc[0].groups != [] then
      assert forall y :: y in doc <==> y == doc[0] || y in doc[1..];
      [doc[0]] + PruneAsWritten(doc[1..])
    else if |doc| == 1 then []
    else
      assert forall y :: y in doc <==> y == doc[0] || y == doc[1] || y in doc[2..];
      [doc[1]] + PruneAsWritten(doc[2..])
  }

  lemma {:induction false} PruneAsWrittenUnique(doc: Doc)
    requires HeadingsUnique(doc)
    ensures HeadingsUnique(PruneAsWritten(doc))
    decreases |doc|
  {
    if doc != [] && (doc[0].groups != [] || |doc| > 1) {
      var i := if doc[0].groups != [] then 0 else 1;
      var rest := PruneAsWritten(doc[i + 1..]);
      assert PruneAsWritten(doc) == [doc[i]] + rest;
      PruneAsWrittenUnique(doc[i + 1..]);
      forall k | 0 <= k < |rest| ensures rest[k].name != doc[i].name {
        assert rest[k] in doc[i + 1..];
      }
    }
  }

  /** Of two adjacent empty headings, the loop as written removes the first and keeps the second. */
  lemma PruneAsWrittenSkips()
    ensures var doc := [Heading("Int16", []), Heading("Int32", [])];
      PruneAsWritten(doc) == [Heading("Int32", [])] && Prune(doc) == []
  {
    var doc := [Heading("Int16", []), Heading("Int32", [])];
    assert doc[2..] == [];
  }

  /**
   * A document r drawn from doc that keeps every heading with groups answers every group query
   * as doc does: dropping empty headings, by either loop, changes no read.
   */
  lemma SubDocGroups(doc: Doc, r: Doc, m: string)
    requires HeadingsUnique(doc) && HeadingsUnique(r)
    requires forall y :: y in r ==> y in doc
    requires forall y :: y in doc && y.groups != [] ==> y in r
    ensures GroupsOf(r, m) == GroupsOf(doc, m)
  {
    if HasHeading(r, m) {
      var k := FindHeading(r, m);
      assert r[k] in doc;
      var j :| 0 <= j < |doc| && doc[j] == r[k];
      GroupsOfAt(doc, m, j);
    }
  }

  lemma PruneGroups(doc: Doc, m: string)
    requires HeadingsUnique(doc)
    ensures HeadingsUnique(Prune(doc)) && GroupsOf(Prune(doc), m) == GroupsOf(doc, m)
  {
    PruneKeeps(doc);
    SubDocGroups(doc, Prune(doc), m);
  }

  lemma PruneAsWrittenGroups(doc: Doc, m: string)
    requires HeadingsUnique(doc)
    ensures HeadingsUnique(PruneAsWritten(doc)) && GroupsOf(PruneAsWritten(doc), m) == GroupsOf(doc, m)
  {
    PruneAsWrittenUnique(doc);
    SubDocGroups(doc, PruneAsWritten(doc), m);
  }

  // ---------------------------------------------------------------- Delete

  /** The group list without variable v of group i. */
  function DropVar(gs: seq<Group>, i: nat, v: nat): (r: seq<Group>)
    requires i < |gs| && v < |gs[i].vars|
    ensures |r| == |gs| && r[i].name == gs[i].name && |r[i].vars| == |gs[i].vars| - 1
  {
    gs[i := gs[i].(vars := gs[i].vars[..v] + gs[i].vars[v + 1..])]
  }

  /** Where a position of the shortened list was before the drop. */
  function Shift(i: nat, v: nat, g: int, w: int): int
  {
    if g == i && w >= v then w + 1 else w
  }

  lemma DropVarAt(gs: seq<Group>, i: nat, v: nat, m: string, g: int, w: int)
    requires i < |gs| && v < |gs[i].vars|
    ensures At(DropVar(gs, i, v), m, g, w) <==> 0 <= w && At(gs, m, g, Shift(i, v, g, w))
    ensures At(DropVar(gs, i, v), m, g, w) ==> DropVar(gs, i, v)[g].vars[w] == gs[g].vars[Shift(i, v, g, w)]
  {
  }

  /** When exactly one variable of gs is named m and it is not the dropped one, the shortened list has it too, alone. */
  lemma DropKeepsOne(gs: seq<Group>, i: nat, v: nat, m: string, g0: nat, w0: nat)
    requires i < |gs| && v < |gs[i].vars| && gs[i].vars[v].name != m
    requires At(gs, m, g0, w0) && forall g', v' :: At(gs, m, g', v') ==> g' == g0 && v' == w0
    ensures var w1 := if g0 == i && w0 > v then w0 - 1 else w0;
      At(DropVar(gs, i, v), m, g0, w1) && DropVar(gs, i, v)[g0].vars[w1] == gs[g0].vars[w0] &&
      forall g', v' :: At(DropVar(gs, i, v), m, g', v') ==> g' == g0 && v' == w1
  {
    var w1 := if g0 == i && w0 > v then w0 - 1 else w0;
    DropVarAt(gs, i, v, m, g0, w1);
    forall g, w | At(DropVar(gs, i, v), m, g, w) ensures g == g0 && w == w1 {
      DropVarAt(gs, i, v, m, g, w);
    }
  }

  /** When exactly one variable of the shortened list is named m, so is exactly one of gs. */
  lemma DropFindsOne(gs: seq<Group>, i: nat, v: nat, m: string, g1: nat, w1: nat)
    requires i < |gs| && v < |gs[i].vars| && gs[i].vars[v].name != m
    requires At(DropVar(gs, i, v), m, g1, w1) && forall g', v' :: At(DropVar(gs, i, v), m, g', v') ==> g' == g1 && v' == w1
    ensures ExactlyOne(gs, m)
  {
    DropVarAt(gs, i, v, m, g1, w1);
    forall g, w | At(gs, m, g, w) ensures g == g1 && w == Shift(i, v, g1, w1) {
      var w' := if g == i && w > v then w - 1 else w;
      DropVarAt(gs, i, v, m, g, w');
    }
  }

  /** Dropping a variable of another name changes what no Set or Get of `m` finds. */
  lemma FoundDrop(gs: seq<Group>, i: nat, v: nat, m: string)
    requires i < |gs| && v < |gs[i].vars| && gs[i].vars[v].name != m
    ensures Found(DropVar(gs, i, v), m) == Found(gs, m)
  {
    var d := DropVar(gs, i, v);
    if ExactlyOne(gs, m) {
      var g0, w0 :| At(gs, m, g0, w0) && forall g', v' :: At(gs, m, g', v') ==> g' == g0 && v' == w0;
      DropKeepsOne(gs, i, v, m, g0, w0);
      var w1 := if g0 == i && w0 > v then w0 - 1 else w0;
      assert ExactlyOne(d, m);
      LocateOne(gs, m, g0, w0);
      LocateOne(d, m, g0, w1);
      assert Found(gs, m) == Some(gs[g0].vars[w0]);
    } else if ExactlyOne(d, m) {
      var g1, w1 :| At(d, m, g1, w1) && forall g', v' :: At(d, m, g', v') ==> g' == g1 && v' == w1;
      DropFindsOne(gs, i, v, m, g1, w1);
    }
  }

  /**
   * RemoveXmlElement as evidently intended: a variable of that name in heading h is removed (the
   * first in document order), then empty headings are pruned; false and no change when none exists.
   */
  function RemoveSpec(doc: Doc, h: string, name: string): (Outcome<bool>, Doc)
  {
    var gs := GroupsOf(doc, h);
    if !Exists(gs, name) then (Ok(false), doc)
    else
      var p := Locate(gs, name);
      assert HasHeading(doc, h);
      (Ok(true), Prune(WithGroups(doc, h, DropVar(gs, p.0, p.1))))
  }

  /**
   * Delete reports whether a variable was there; after deleting the only one of its name, Get
   * finds none; other names, and every other heading, read as before.
   */
  lemma RemoveSpecEffect(doc: Doc, h: string, name: string, h': string, m: string)
    requires HeadingsUnique(doc)
    ensures var (r, d) := RemoveSpec(doc, h, name);
      HeadingsUnique(d) &&
      (r == Ok(true) <==> Exists(GroupsOf(doc, h), name)) && (r != Ok(true) ==> d == doc) &&
      (ExactlyOne(GroupsOf(doc, h), name) ==> !Exists(GroupsOf(d, h), name)) &&
      (h' != h ==> GroupsOf(d, h') == GroupsOf(doc, h')) &&
      ((h', m) != (h, name) ==> VarAt(d, h', m) == VarAt(doc, h', m))
  {
    var gs := GroupsOf(doc, h);
    if Exists(gs, name) {
      var p := Locate(gs, name);
      var gs' := DropVar(gs, p.0, p.1);
      var w := WithGroups(doc, h, gs');
      WithGroupsOf(doc, h, gs', h');
      WithGroupsOf(doc, h, gs', h);
      PruneGroups(w, h');
      PruneGroups(w, h);
      if ExactlyOne(gs, name) {
        forall g, v | At(gs', name, g, v) ensures false {
          DropVarAt(gs, p.0, p.1, name, g, v);
        }
      }
      if h' == h && m != name {
        FoundDrop(gs, p.0, p.1, m);
      }
    }
  }

  /** DeleteX of the one variable of that name makes GetX return the type's zero or null. */
  lemma DeleteThenGet(doc: Doc, t: VarType, name: string, ft: FloatText)
    requires HeadingsUnique(doc) && InMarkup(t) && t != MetaData && ExactlyOne(GroupsOf(doc, TableName(t)), name)
    ensures RemoveSpec(doc, TableName(t), name).0 == Ok(true)
    ensures GetValue(RemoveSpec(doc, TableName(t), name).1, t, name, ft) == Ok(Missing(t))
  {
    RemoveSpecEffect(doc, TableName(t), name, TableName(t), name);
  }

  /** Group k of `_MetaData` is named `type` and holds a variable named `name`: what `//SSM/_MetaData/{type}/{name}` selects. */
  predicate MetaMatch(gs: seq<Group>, typeName: string, name: string, k: int)
  {
    0 <= k < |gs| && gs[k].name == typeName && HasVar(gs[k].vars, name)
  }

  lemma MetaMatchTail(gs: seq<Group>, typeName: string, name: string)
    requires exists k :: 0 <= k < |gs| && MetaMatch(gs, typeName, name, k)
    requires !MetaMatch(gs, typeName, name, 0)
    ensures exists k :: 0 <= k < |gs[1..]| && MetaMatch(gs[1..], typeName, name, k)
  {
    var j :| 0 <= j < |gs| && MetaMatch(gs, typeName, name, j);
    assert gs[1..][j - 1] == gs[j];
    assert MetaMatch(gs[1..], typeName, name, j - 1);
  }

  function FirstMetaMatch(gs: seq<Group>, typeName: string, name: string): (k: nat)
    requires exists k :: 0 <= k < |gs| && MetaMatch(gs, typeName, name, k)
    ensures MetaMatch(gs, typeName, name, k)
    ensures forall j :: 0 <= j < k ==> !MetaMatch(gs, typeName, name, j)
  {
    if MetaMatch(gs, typeName, name, 0) then 0
    else
      MetaMatchTail(gs, typeName, name);
      var k := FirstMetaMatch(gs[1..], typeName, name);
      assert forall j :: 1 <= j < |gs| ==> (MetaMatch(gs, typeName, name, j) <==> MetaMatch(gs[1..], typeName, name, j - 1));
      1 + k
  }

  const MetaHeading: string := "_MetaData"

  /**
   * RemoveXmlElement(name, type) as written: it looks for `//SSM/_MetaData/{type}/{name}`, a path
   * under the metadata heading whatever the type; on a match it empties the matched node's whole
   * group (ParentNode.RemoveAll) and runs DeleteEmptyParents as written.
   */
  function RemoveAsWritten(doc: Doc, typeName: string, name: string): (Outcome<bool>, Doc)
  {
    var gs := GroupsOf(doc, MetaHeading);
    if !exists k :: 0 <= k < |gs| && MetaMatch(gs, typeName, name, k) then (Ok(false), doc)
    else
      var k := FirstMetaMatch(gs, typeName, name);
      assert HasHeading(doc, MetaHeading);
      (Ok(true), PruneAsWritten(WithGroups(doc, MetaHeading, gs[k := gs[k].(vars := [])])))
  }

  /**
   * As written, deleting a variable that AddX just added under its type's heading finds nothing,
   * returns false and keeps it, while the intended deletion removes it: for instance AddInt16 of
   * "x" into an empty file, then DeleteInt16("x").
   */
  lemma RemoveAsWrittenMissesAdded(doc: Doc, t: string, g: string, x: Variable)
    requires HeadingsUnique(doc) && t != MetaHeading && GroupsOf(doc, MetaHeading) == []
    requires !Exists(GroupsOf(doc, t), x.name)
    ensures var d := AddSpec(doc, t, g, x);
      VarAt(d, t, x.name) == Some(x) &&
      RemoveAsWritten(d, t, x.name) == (Ok(false), d) &&
      RemoveSpec(d, t, x.name).0 == Ok(true) && VarAt(RemoveSpec(d, t, x.name).1, t, x.name).None?
  {
    var d := AddSpec(doc, t, g, x);
    AddSpecVarAt(doc, t, g, x, t, x.name);
    AddSpecHeadings(doc, t, g, x, MetaHeading);
    RemoveSpecEffect(d, t, x.name, t, x.name);
  }

  /** As written, a match empties its whole group: deleting `a` also deletes its sibling `b`. */
  lemma RemoveAsWrittenTakesSiblings()
    ensures var a := NewVar("a", "1", "d");
      var b := NewVar("b", "2", "d");
      var doc := [Heading(MetaHeading, [Group("Int16", [a, b])])];
      RemoveAsWritten(doc, "Int16", "a") == (Ok(true), [Heading(MetaHeading, [Group("Int16", [])])]) &&
      VarAt(doc, MetaHeading, "b") == Some(b)
  {
    var a := NewVar("a", "1", "d");
    var b := NewVar("b", "2", "d");
    var doc := [Heading(MetaHeading, [Group("Int16", [a, b])])];
    var gs := GroupsOf(doc, MetaHeading);
    GroupsOfAt(doc, MetaHeading, 0);
    assert MetaMatch(gs, "Int16", "a", 0) by {
      assert gs[0].vars[0].name == "a";
    }
    assert At(gs, "b", 0, 1);
    assert "a" != "b";
    LocateOne(gs, "b", 0, 1);
    assert FirstMetaMatch(gs, "Int16", "a") == 0;
    assert gs == [Group("Int16", [a, b])];
    assert gs[0 := gs[0].(vars := [])] == [Group("Int16", [])];
    var w := WithGroups(doc, MetaHeading, gs[0 := gs[0].(vars := [])]);
    assert w == [Heading(MetaHeading, [Group("Int16", [])])];
    assert w[1..] == [];
    assert PruneAsWritten(w) == w;
  }

  // ---------------------------------------------------------------- Open

  /** The variable AddMetaData creates for a seed item. */
  function ItemVar(it: MetaItem): (x: Variable)
    ensures x.name == it.name && FieldText(x.fields, "value") == Some(it.value)
  {
    NewVar(it.name, it.value, it.desc)
  }

  /** The document after AddMetaData of each item in turn, starting from an empty root. */
  function SeedAfter(items: seq<MetaItem>): Doc
  {
    if items == [] then []
    else
      var it := items[|items| - 1];
      AddSpec(SeedAfter(items[..|items| - 1]), MetaHeading, it.group, ItemVar(it))
  }

  /** No two items share a name. */
  predicate NamesDistinct(items: seq<MetaItem>)
  {
    forall i, j :: 0 <= i < j < |items| ==> items[i].name != items[j].name
  }

  /** The seeded document has unique headings, and the only names in its metadata are the items'. */
  lemma {:induction false} SeedAfterNames(items: seq<MetaItem>, m: string)
    ensures HeadingsUnique(SeedAfter(items))
    ensures Exists(GroupsOf(SeedAfter(items), MetaHeading), m) ==> exists j :: 0 <= j < |items| && items[j].name == m
  {
    if items != [] {
      var init := items[..|items| - 1];
      var it := items[|items| - 1];
      var d := SeedAfter(init);
      SeedAfterNames(init, m);
      AddSpecHeadings(d, MetaHeading, it.group, ItemVar(it), MetaHeading);
      var gs := GroupsOf(d, MetaHeading);
      if Exists(GroupsOf(SeedAfter(items), MetaHeading), m) {
        var g, v :| At(AddToGroup(gs, it.group, ItemVar(it)), m, g, v);
        AddToGroupAt(gs, it.group, ItemVar(it), m, g, v);
        if At(gs, m, g, v) {
          var j :| 0 <= j < |init| && init[j].name == m;
          assert items[j] == init[j];
        } else {
          assert items[|items| - 1].name == m;
        }
      }
    }
  }

  /** When the item names are distinct, each item's name reads as the variable AddMetaData made of it. */
  lemma {:induction false} SeedAfterReads(items: seq<MetaItem>, j: nat)
    requires NamesDistinct(items) && j < |items|
    ensures VarAt(SeedAfter(items), MetaHeading, items[j].name) == Some(ItemVar(items[j]))
  {
    var init := items[..|items| - 1];
    var it := items[|items| - 1];
    var d := SeedAfter(init);
    SeedAfterNames(init, it.name);
    SeedAfterNames(init, items[j].name);
    assert !Exists(GroupsOf(d, MetaHeading), it.name);
    AddSpecVarAt(d, MetaHeading, it.group, ItemVar(it), MetaHeading, items[j].name);
    if j < |items| - 1 {
      assert init[j] == items[j];
      assert NamesDistinct(init) by {
        assert forall a :: 0 <= a < |init| ==> init[a] == items[a];
      }
      SeedAfterReads(init, j);
    }
  }

  /** The document Open writes into a new file: `_MetaData` holding HistoricalInfo and LastAccessInfo, four variables each. */
  function SeedDoc(appVersion: string, formatVersion: string, now: int): Doc
  {
    var it := NewFileMeta(appVersion, formatVersion, now, "XML");
    [Heading(MetaHeading, [Group("HistoricalInfo", [ItemVar(it[0]), ItemVar(it[2]), ItemVar(it[4]), ItemVar(it[6])]),
                           Group("LastAccessInfo", [ItemVar(it[1]), ItemVar(it[3]), ItemVar(it[5]), ItemVar(it[7])])])]
  }

  lemma SeedNamesDistinct(appVersion: string, formatVersion: string, now: int)
    ensures NamesDistinct(NewFileMeta(appVersion, formatVersion, now, "XML"))
  {
    NewFileNamesDistinct(appVersion, formatVersion, now, "XML");
  }

  /** The seed keys are plain element names; one lemma per pair keeps each proof small. */
  lemma CreationVersionNamesPlain()
    ensures PlainName("SSM_CreationAppVersion") && PlainName("SSM_CreationFormatVersion")
  {
  }

  lemma CreationStampNamesPlain()
    ensures PlainName("SSM_CreationTimestamp") && PlainName("SSM_CreationMode")
  {
  }

  lemma LastAccessVersionNamesPlain()
    ensures PlainName("SSM_LastAccessAppVersion") && PlainName("SSM_LastAccessFormatVersion")
  {
  }

  lemma LastAccessStampNamesPlain()
    ensures PlainName("SSM_LastLoadedTimestamp") && PlainName("SSM_LastAccessMode")
  {
  }

  /** Every name and group of the items is a plain element name. */
  predicate ItemsPlain(items: seq<MetaItem>)
  {
    forall k :: 0 <= k < |items| ==> PlainName(items[k].name) && PlainName(items[k].group)
  }

  /** The seed names and groups are plain element names. */
  lemma SeedNamesPlain(appVersion: string, formatVersion: string, now: int)
    ensures ItemsPlain(NewFileMeta(appVersion, formatVersion, now, "XML"))
  {
    assert PlainName("HistoricalInfo") && PlainName("LastAccessInfo");
    CreationVersionNamesPlain();
    CreationStampNamesPlain();
    LastAccessVersionNamesPlain();
    LastAccessStampNamesPlain();
  }

  /** Eight items with distinct names whose groups alternate HistoricalInfo, LastAccessInfo, as the seed items do. */
  predicate SeedShaped(items: seq<MetaItem>)
  {
    |items| == 8 && NamesDistinct(items) &&
    forall k :: 0 <= k < 8 ==> items[k].group == if k % 2 == 0 then "HistoricalInfo" else "LastAccessInfo"
  }

  lemma NewFileShaped(appVersion: string, formatVersion: string, now: int)
    ensures SeedShaped(NewFileMeta(appVersion, formatVersion, now, "XML"))
  {
    SeedNamesDistinct(appVersion, formatVersion, now);
  }

  /** Each AddMetaData of a new file finds its name new, so it adds the k-th item. */
  lemma SeedStep(items: seq<MetaItem>, k: nat)
    requires SeedShaped(items) && k < 8
    ensures HeadingsUnique(SeedAfter(items[..k])) && !Exists(GroupsOf(SeedAfter(items[..k]), MetaHeading), items[k].name)
    ensures SeedAfter(items[..k + 1]) == AddSpec(SeedAfter(items[..k]), MetaHeading, items[k].group, ItemVar(items[k]))
  {
    SeedAfterNames(items[..k], items[k].name);
    assert items[..k + 1][..k] == items[..k];
  }

  /** The documents before and after each AddMetaData of a new file. */
  ghost function SeedDocs(items: seq<MetaItem>): (ds: seq<Doc>)
    ensures |ds| == |items| + 1
  {
    seq(|items| + 1, k requires 0 <= k <= |items| => SeedAfter(items[..k]))
  }

  /** Adding item to d, which has unique headings and not the item's name, gives e. */
  ghost predicate SeedLink(d: Doc, item: MetaItem, e: Doc)
  {
    HeadingsUnique(d) && !Exists(GroupsOf(d, MetaHeading), item.name) &&
    e == AddSpec(d, MetaHeading, item.group, ItemVar(item))
  }

  /** The seed documents start empty, end with all items added, and each follows from the one before. */
  lemma SeedChain(items: seq<MetaItem>)
    requires SeedShaped(items)
    ensures SeedDocs(items)[0] == [] && SeedDocs(items)[8] == SeedAfter(items)
    ensures forall k :: 0 <= k < 8 ==> SeedLink(SeedDocs(items)[k], items[k], SeedDocs(items)[k + 1])
  {
    var ds := SeedDocs(items);
    assert items[..0] == [] && items[..8] == items;
    forall k | 0 <= k < 8
      ensures SeedLink(ds[k], items[k], ds[k + 1])
    {
      SeedStep(items, k);
    }
  }

  /** Adding to the metadata heading of a document that has only that heading. */
  lemma AddToOnlyHeading(gs: seq<Group>, g: string, x: Variable)
    ensures AddSpec([Heading(MetaHeading, gs)], MetaHeading, g, x) == [Heading(MetaHeading, AddToGroup(gs, g, x))]
  {
    var doc := [Heading(MetaHeading, gs)];
    assert doc[0].name == MetaHeading;
    assert HasHeading(doc, MetaHeading) && FindHeading(doc, MetaHeading) == 0;
  }

  /** Appending to one of two differently named groups. */
  lemma AddToOneOfTwo(a: Group, b: Group, g: string, x: Variable)
    requires a.name != b.name && (g == a.name || g == b.name)
    ensures AddToGroup([a, b], g, x) == if g == a.name then [a.(vars := a.vars + [x]), b] else [a, b.(vars := b.vars + [x])]
  {
    assert HasGroup([a, b], g) by {
      if g == a.name { assert [a, b][0].name == g; } else { assert [a, b][1].name == g; }
    }
  }

  /** From the third call on, each AddMetaData appends to HistoricalInfo (even calls) or LastAccessInfo (odd calls). */
  lemma SeedStepTwo(items: seq<MetaItem>, k: nat, a: seq<Variable>, b: seq<Variable>)
    requires SeedShaped(items) && 2 <= k < 8
    requires SeedAfter(items[..k]) == [Heading(MetaHeading, [Group("HistoricalInfo", a), Group("LastAccessInfo", b)])]
    ensures SeedAfter(items[..k + 1]) == [Heading(MetaHeading,
        if k % 2 == 0 then [Group("HistoricalInfo", a + [ItemVar(items[k])]), Group("LastAccessInfo", b)]
        else [Group("HistoricalInfo", a), Group("LastAccessInfo", b + [ItemVar(items[k])])])]
  {
    var hi, li := "HistoricalInfo", "LastAccessInfo";
    assert hi != li by { assert hi[0] != li[0]; }
    SeedStep(items, k);
    AddToOnlyHeading([Group(hi, a), Group(li, b)], items[k].group, ItemVar(items[k]));
    AddToOneOfTwo(Group(hi, a), Group(li, b), items[k].group, ItemVar(items[k]));
  }

  /** The first AddMetaData creates the heading and its first group. */
  lemma AddFirstItem(g: string, x: Variable)
    ensures AddSpec([], MetaHeading, g, x) == [Heading(MetaHeading, [Group(g, [x])])]
  {
    assert !HasHeading([], MetaHeading);
    assert !HasGroup([], g);
    assert AddToGroup([], g, x) == [Group(g, [x])];
  }

  /** The second creates the second group after the first. */
  lemma AddSecondItem(g: string, x: Variable, g': string, y: Variable)
    requires g != g'
    ensures AddSpec([Heading(MetaHeading, [Group(g, [x])])], MetaHeading, g', y) ==
      [Heading(MetaHeading, [Group(g, [x]), Group(g', [y])])]
  {
    AddToOnlyHeading([Group(g, [x])], g', y);
    assert !HasGroup([Group(g, [x])], g');
    assert AddToGroup([Group(g, [x])], g', y) == [Group(g, [x]), Group(g', [y])];
  }

  /** The first two AddMetaData calls create the two groups. */
  lemma SeedFirstTwo(items: seq<MetaItem>)
    requires SeedShaped(items)
    ensures SeedAfter(items[..2]) == [Heading(MetaHeading, [Group("HistoricalInfo", [ItemVar(items[0])]), Group("LastAccessInfo", [ItemVar(items[1])])])]
  {
    var hi, li := "HistoricalInfo", "LastAccessInfo";
    assert hi != li by { assert hi[0] != li[0]; }
    assert items[..0] == [];
    SeedStep(items, 0);
    AddFirstItem(hi, ItemVar(items[0]));
    SeedStep(items, 1);
    AddSecondItem(hi, ItemVar(items[0]), li, ItemVar(items[1]));
  }

  /** The variables of the even-numbered items among the first k: what HistoricalInfo holds. */
  function EvenVars(items: seq<MetaItem>, k: nat): (xs: seq<Variable>)
    requires k <= |items|
    ensures |xs| == (k + 1) / 2
  {
    seq((k + 1) / 2, i requires 0 <= i < (k + 1) / 2 => ItemVar(items[2 * i]))
  }

  /** The variables of the odd-numbered items among the first k: what LastAccessInfo holds. */
  function OddVars(items: seq<MetaItem>, k: nat): (xs: seq<Variable>)
    requires k <= |items|
    ensures |xs| == k / 2
  {
    seq(k / 2, i requires 0 <= i < k / 2 => ItemVar(items[2 * i + 1]))
  }

  /** Item k - 1 joins the even or the odd variables, by its parity. */
  lemma VarsStep(items: seq<MetaItem>, k: nat)
    requires 1 <= k <= |items|
    ensures (k - 1) % 2 == 0 ==>
      EvenVars(items, k) == EvenVars(items, k - 1) + [ItemVar(items[k - 1])] && OddVars(items, k) == OddVars(items, k - 1)
    ensures (k - 1) % 2 == 1 ==>
      EvenVars(items, k) == EvenVars(items, k - 1) && OddVars(items, k) == OddVars(items, k - 1) + [ItemVar(items[k - 1])]
  {
  }

  /** After the first k >= 2 AddMetaData calls, each group holds its items in call order. */
  lemma {:induction false} SeedPrefix(items: seq<MetaItem>, k: nat)
    requires SeedShaped(items) && 2 <= k <= 8
    ensures SeedAfter(items[..k]) ==
      [Heading(MetaHeading, [Group("HistoricalInfo", EvenVars(items, k)), Group("LastAccessInfo", OddVars(items, k))])]
  {
    if k == 2 {
      SeedFirstTwo(items);
      assert EvenVars(items, 2) == [ItemVar(items[0])];
      assert OddVars(items, 2) == [ItemVar(items[1])];
    } else {
      SeedPrefix(items, k - 1);
      SeedStepTwo(items, k - 1, EvenVars(items, k - 1), OddVars(items, k - 1));
      VarsStep(items, k);
    }
  }

  /** The eight AddMetaData calls build exactly the seed document: two groups, alternate items in each. */
  lemma SeedAfterShape(items: seq<MetaItem>)
    requires SeedShaped(items)
    ensures SeedAfter(items) == [Heading(MetaHeading,
      [Group("HistoricalInfo", [ItemVar(items[0]), ItemVar(items[2]), ItemVar(items[4]), ItemVar(items[6])]),
       Group("LastAccessInfo", [ItemVar(items[1]), ItemVar(items[3]), ItemVar(items[5]), ItemVar(items[7])])])]
  {
    SeedPrefix(items, 8);
    assert items[..8] == items;
    EightVars(items);
  }

  /** Of eight items, the even ones are items 0, 2, 4 and 6 and the odd ones items 1, 3, 5 and 7. */
  lemma EightVars(items: seq<MetaItem>)
    requires |items| == 8
    ensures EvenVars(items, 8) == [ItemVar(items[0]), ItemVar(items[2]), ItemVar(items[4]), ItemVar(items[6])]
    ensures OddVars(items, 8) == [ItemVar(items[1]), ItemVar(items[3]), ItemVar(items[5]), ItemVar(items[7])]
  {
    var ev, od := EvenVars(items, 8), OddVars(items, 8);
    assert ev[0] == ItemVar(items[0]) && ev[1] == ItemVar(items[2]) && ev[2] == ItemVar(items[4]) && ev[3] == ItemVar(items[6]);
    assert od[0] == ItemVar(items[1]) && od[1] == ItemVar(items[3]) && od[2] == ItemVar(items[5]) && od[3] == ItemVar(items[7]);
  }

  lemma SeedAfterIsSeedDoc(appVersion: string, formatVersion: string, now: int)
    ensures SeedAfter(NewFileMeta(appVersion, formatVersion, now, "XML")) == SeedDoc(appVersion, formatVersion, now)
  {
    NewFileShaped(appVersion, formatVersion, now);
    SeedAfterShape(NewFileMeta(appVersion, formatVersion, now, "XML"));
  }

  /** In a new file every seed item reads back with its value: the versions, the clock reading and "XML". */
  lemma NewFileReads(appVersion: string, formatVersion: string, now: int, k: nat)
    requires k < 8
    ensures var it := NewFileMeta(appVersion, formatVersion, now, "XML");
      HeadingsUnique(SeedDoc(appVersion, formatVersion, now)) &&
      VarAt(SeedDoc(appVersion, formatVersion, now), MetaHeading, it[k].name) == Some(ItemVar(it[k])) &&
      ValueText(SeedDoc(appVersion, formatVersion, now), MetaHeading, it[k].name) == Ok(Some(it[k].value))
  {
    var it := NewFileMeta(appVersion, formatVersion, now, "XML");
    SeedAfterIsSeedDoc(appVersion, formatVersion, now);
    SeedNamesDistinct(appVersion, formatVersion, now);
    SeedAfterNames(it, "");
    SeedAfterReads(it, k);
  }

  /** Open on an existing file: three SetMetaData calls; an exception ends the sequence. */
  function RefreshSpec(doc: Doc, formatVersion: string, now: int): (Outcome<()>, Doc)
  {
    var s1 := SetSpec(doc, MetaHeading, "SSM_LastAccessFormatVersion", formatVersion);
    if s1.0.Threw? then (Threw(s1.0.error), s1.1)
    else
      var s2 := SetSpec(s1.1, MetaHeading, "SSM_LastLoadedTimestamp", DecimalText.ShowInt(now));
      if s2.0.Threw? then (Threw(s2.0.error), s2.1)
      else
        var s3 := SetSpec(s2.1, MetaHeading, "SSM_LastAccessMode", "XML");
        if s3.0.Threw? then (Threw(s3.0.error), s3.1) else (Ok(()), s3.1)
  }

  /** When none of the three Set calls throws, their composition is the refresh. */
  lemma RefreshAllSteps(d0: Doc, d1: Doc, d2: Doc, d3: Doc, s1: Outcome<bool>, s2: Outcome<bool>, s3: Outcome<bool>,
                        formatVersion: string, now: int)
    requires (s1, d1) == SetSpec(d0, MetaHeading, "SSM_LastAccessFormatVersion", formatVersion) && s1.Ok?
    requires (s2, d2) == SetSpec(d1, MetaHeading, "SSM_LastLoadedTimestamp", DecimalText.ShowInt(now)) && s2.Ok?
    requires (s3, d3) == SetSpec(d2, MetaHeading, "SSM_LastAccessMode", "XML") && s3.Ok?
    ensures RefreshSpec(d0, formatVersion, now) == (Ok(()), d3)
  {
  }

  /** Reopening rewrites at most the three keys: every other variable of every heading reads as before. */
  lemma RefreshTouchesThreeKeys(doc: Doc, formatVersion: string, now: int, h: string, m: string)
    requires HeadingsUnique(doc)
    ensures var (r, d) := RefreshSpec(doc, formatVersion, now);
      HeadingsUnique(d) && (r.Threw? ==> r.error == NullReference) &&
      (h != MetaHeading || !IsRefreshedKey(m) ==> VarAt(d, h, m) == VarAt(doc, h, m))
  {
    var s1 := SetSpec(doc, MetaHeading, "SSM_LastAccessFormatVersion", formatVersion);
    SetSpecEffect(doc, MetaHeading, "SSM_LastAccessFormatVersion", formatVersion, h, m);
    var s2 := SetSpec(s1.1, MetaHeading, "SSM_LastLoadedTimestamp", DecimalText.ShowInt(now));
    SetSpecEffect(s1.1, MetaHeading, "SSM_LastLoadedTimestamp", DecimalText.ShowInt(now), h, m);
    SetSpecEffect(s2.1, MetaHeading, "SSM_LastAccessMode", "XML", h, m);
  }

  /** A key that exists once with a `value` child: Set writes it. */
  predicate Settable(doc: Doc, m: string)
  {
    VarAt(doc, MetaHeading, m).Some? && FieldText(VarAt(doc, MetaHeading, m).value.fields, "value").Some?
  }

  /** One SetMetaData of a settable key succeeds, makes the key read as the new text and moves the keys m1 and m2 when they differ from it. */
  lemma SetMetaStep(doc: Doc, k: string, v: string, m1: string, m2: string)
    requires HeadingsUnique(doc) && Settable(doc, k)
    ensures var s := SetSpec(doc, MetaHeading, k, v);
      s.0 == Ok(true) && HeadingsUnique(s.1) && ValueText(s.1, MetaHeading, k) == Ok(Some(v)) &&
      (m1 != k ==> VarAt(s.1, MetaHeading, m1) == VarAt(doc, MetaHeading, m1)) &&
      (m2 != k ==> VarAt(s.1, MetaHeading, m2) == VarAt(doc, MetaHeading, m2))
  {
    SetSpecEffect(doc, MetaHeading, k, v, MetaHeading, k);
    SetFieldText(VarAt(doc, MetaHeading, k).value.fields, "value", v, "value");
    SetSpecEffect(doc, MetaHeading, k, v, MetaHeading, m1);
    SetSpecEffect(doc, MetaHeading, k, v, MetaHeading, m2);
  }

  /** When the three keys can be written, reopening succeeds and they read as the new values. */
  lemma RefreshSetsKeys(doc: Doc, formatVersion: string, now: int)
    requires HeadingsUnique(doc)
    requires Settable(doc, "SSM_LastAccessFormatVersion") && Settable(doc, "SSM_LastLoadedTimestamp") && Settable(doc, "SSM_LastAccessMode")
    ensures var (r, d) := RefreshSpec(doc, formatVersion, now);
      r == Ok(()) &&
      ValueText(d, MetaHeading, "SSM_LastAccessFormatVersion") == Ok(Some(formatVersion)) &&
      ValueText(d, MetaHeading, "SSM_LastLoadedTimestamp") == Ok(Some(DecimalText.ShowInt(now))) &&
      ValueText(d, MetaHeading, "SSM_LastAccessMode") == Ok(Some("XML"))
  {
    var k1, k2, k3 := "SSM_LastAccessFormatVersion", "SSM_LastLoadedTimestamp", "SSM_LastAccessMode";
    assert k1 != k2 && k1 != k3 && k2 != k3 by {
      assert |k1| == 27 && |k2| == 23 && |k3| == 18;
    }
    ThreeSets(doc, k1, k2, k3, formatVersion, DecimalText.ShowInt(now), "XML");
  }

  /** Three SetMetaData calls of distinct settable keys all succeed, and each key reads as its new text. */
  lemma ThreeSets(doc: Doc, k1: string, k2: string, k3: string, v1: string, v2: string, v3: string)
    requires HeadingsUnique(doc) && k1 != k2 && k1 != k3 && k2 != k3
    requires Settable(doc, k1) && Settable(doc, k2) && Settable(doc, k3)
    ensures var s1 := SetSpec(doc, MetaHeading, k1, v1);
      var s2 := SetSpec(s1.1, MetaHeading, k2, v2);
      var s3 := SetSpec(s2.1, MetaHeading, k3, v3);
      s1.0 == Ok(true) && s2.0 == Ok(true) && s3.0 == Ok(true) &&
      ValueText(s3.1, MetaHeading, k1) == Ok(Some(v1)) && ValueText(s3.1, MetaHeading, k2) == Ok(Some(v2)) &&
      ValueText(s3.1, MetaHeading, k3) == Ok(Some(v3))
  {
    var d1 := SetSpec(doc, MetaHeading, k1, v1).1;
    SetMetaStep(doc, k1, v1, k2, k3);
    var d2 := SetSpec(d1, MetaHeading, k2, v2).1;
    SetMetaStep(d1, k2, v2, k1, k3);
    var d3 := SetSpec(d2, MetaHeading, k3, v3).1;
    SetMetaStep(d2, k3, v3, k1, k2);
    ValueTextSame(d3, d1, k1);
    ValueTextSame(d3, d2, k2);
  }

  /** A key that resolves to the same variable reads the same. */
  lemma ValueTextSame(d: Doc, e: Doc, m: string)
    requires VarAt(d, MetaHeading, m) == VarAt(e, MetaHeading, m)
    ensures ValueText(d, MetaHeading, m) == ValueText(e, MetaHeading, m)
  {
  }

  /**
   * Open: a new file receives the seed document; an existing one, pruned of empty headings,
   * has the three last-access keys rewritten.
   */
  function OpenSpec(existing: Option<Doc>, appVersion: string, formatVersion: string, now: int): (Outcome<()>, Doc)
  {
    match existing
    case None => (Ok(()), SeedDoc(appVersion, formatVersion, now))
    case Some(file) => RefreshSpec(Prune(file), formatVersion, now)
  }
}

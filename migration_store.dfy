/**
 * The SSM objects the two migration walkers (Migration/CrossModeMigration.cs and
 * Migration/XmlSettingsMigration.cs) drive, reduced to the calls they receive. Every call is
 * written to a journal that all the stores of one migration share, so the order of the calls on
 * different stores is visible. Whether a call returns or throws is the store's `answer` for the
 * call and its place in the journal; the backend that does the work is modelled in SQLiteMode and
 * MarkupMode, not here.
 */
module MigrationStore {
  import opened Wrappers
  import opened Data

  /** Which of the two SSM objects of a migration a call goes to. */
  datatype Role = Source | Destination

  /** The SSM methods the migrations call. */
  datatype Call =
    | Open
    | Close
    | GetAllTypes
    | ImportDataEntry(entry: DataEntry)
    | UpdateCrossModeMigrationStatus
    | UpdateXmlSettingsMigrationStatus

  datatype Event = Event(role: Role, call: Call)

  /** The calls of one migration, in the order they were made. */
  class Journal {
    var events: seq<Event>

    constructor ()
      ensures events == []
    {
      events := [];
    }
  }

  /** An SSM object as a migration sees it. */
  class Store {
    const role: Role
    const journal: Journal
    /** Whether the call made as event n of the journal returns (Ok) or throws. */
    const answer: (nat, Call) -> Outcome<()>
    /** The array GetAllTypes returns when it returns: the store's records, null entries included. */
    const listing: seq<Option<DataEntry>>

    constructor (role: Role, journal: Journal, answer: (nat, Call) -> Outcome<()>, listing: seq<Option<DataEntry>>)
      ensures this.role == role && this.journal == journal && this.answer == answer && this.listing == listing
    {
      this.role := role;
      this.journal := journal;
      this.answer := answer;
      this.listing := listing;
    }

    /** Any call other than GetAllTypes: it is journalled and returns or throws as `answer` says. */
    method Perform(c: Call) returns (r: Outcome<()>)
      modifies journal
      ensures journal.events == old(journal.events) + [Event(role, c)]
      ensures r == answer(|old(journal.events)|, c)
    {
      r := answer(|journal.events|, c);
      journal.events := journal.events + [Event(role, c)];
    }

    /** GetAllTypes: journalled; when it returns, it returns the store's records. */
    method ReadAll() returns (r: Outcome<seq<Option<DataEntry>>>)
      modifies journal
      ensures journal.events == old(journal.events) + [Event(role, GetAllTypes)]
      ensures r == Listed(this, |old(journal.events)|)
    {
      r := Listed(this, |journal.events|);
      journal.events := journal.events + [Event(role, GetAllTypes)];
    }
  }

  /** What GetAllTypes gives when it is event n of the journal. */
  function Listed(s: Store, n: nat): (r: Outcome<seq<Option<DataEntry>>>)
    ensures r.Ok? <==> s.answer(n, GetAllTypes).Ok?
    ensures r.Ok? ==> r.value == s.listing
  {
    match s.answer(n, GetAllTypes)
    case Threw(e) => Threw(e)
    case Ok(_) => Ok(s.listing)
  }

  /** Whether event e returns or throws when it is event n of the journal: the answer of the store it goes to. */
  function AnswerOf(src: Store, dst: Store, n: nat, e: Event): Outcome<()>
  {
    if e.role == Source then src.answer(n, e.call) else dst.answer(n, e.call)
  }

  /**
   * The position in `plan` of the first call that throws, when the calls of `plan` are made from
   * event `base` of the journal on, starting at position i of the plan; None when every call from
   * position i on returns.
   */
  function FirstThrowFrom(src: Store, dst: Store, base: nat, plan: seq<Event>, i: nat): (r: Option<nat>)
    requires i <= |plan|
    decreases |plan| - i
    ensures r.Some? ==> i <= r.value < |plan| && AnswerOf(src, dst, base + r.value, plan[r.value]).Threw?
    ensures r.Some? ==> forall k :: i <= k < r.value ==> AnswerOf(src, dst, base + k, plan[k]).Ok?
    ensures r.None? <==> forall k :: i <= k < |plan| ==> AnswerOf(src, dst, base + k, plan[k]).Ok?
  {
    if i == |plan| then None
    else if AnswerOf(src, dst, base + i, plan[i]).Threw? then Some(i)
    else FirstThrowFrom(src, dst, base, plan, i + 1)
  }

  function FirstThrow(src: Store, dst: Store, base: nat, plan: seq<Event>): Option<nat>
  {
    FirstThrowFrom(src, dst, base, plan, 0)
  }

  /** How many calls of the plan are made: all of them, or those up to and including the first that throws. */
  function Made(f: Option<nat>, plan: seq<Event>): nat
  {
    if f.None? then |plan| else f.value + 1
  }

  /**
   * After the first n calls of the plan returned: if that was the whole plan, no call throws;
   * otherwise, if call n throws, it is the first to.
   */
  lemma FirstThrowAfter(src: Store, dst: Store, base: nat, plan: seq<Event>, n: nat)
    requires n <= |plan| && forall k :: 0 <= k < n ==> AnswerOf(src, dst, base + k, plan[k]).Ok?
    ensures n == |plan| ==> FirstThrow(src, dst, base, plan) == None
    ensures n < |plan| && AnswerOf(src, dst, base + n, plan[n]).Threw? ==> FirstThrow(src, dst, base, plan) == Some(n)
    ensures n < |plan| && AnswerOf(src, dst, base + n, plan[n]).Ok? ==>
      forall k :: 0 <= k < n + 1 ==> AnswerOf(src, dst, base + k, plan[k]).Ok?
  {
  }

  /**
   * Call c on store s as call n of `plan`, once the first n calls of the plan were made from
   * journal `start` on and all returned: the journal grows by that call, and it either returns
   * or is the first call of the plan to throw.
   */
  method Step(s: Store, c: Call, ghost src: Store, ghost dst: Store, ghost start: seq<Event>, ghost plan: seq<Event>, ghost n: nat)
    returns (r: Outcome<()>)
    requires (s == src && s.role == Source) || (s == dst && s.role == Destination)
    requires n < |plan| && plan[n] == Event(s.role, c)
    requires s.journal.events == start + plan[..n]
    requires forall k :: 0 <= k < n ==> AnswerOf(src, dst, |start| + k, plan[k]).Ok?
    modifies s.journal
    ensures s.journal.events == start + plan[..n + 1]
    ensures r == AnswerOf(src, dst, |start| + n, plan[n])
    ensures r.Threw? ==> FirstThrow(src, dst, |start|, plan) == Some(n)
    ensures r.Ok? ==> forall k :: 0 <= k < n + 1 ==> AnswerOf(src, dst, |start| + k, plan[k]).Ok?
  {
    r := s.Perform(c);
    assert plan[..n + 1] == plan[..n] + [plan[n]];
    FirstThrowAfter(src, dst, |start|, plan, n);
  }

  /** GetAllTypes on store s as call n of `plan`, as Step says for the other calls. */
  method ReadStep(s: Store, ghost src: Store, ghost dst: Store, ghost start: seq<Event>, ghost plan: seq<Event>, ghost n: nat)
    returns (r: Outcome<seq<Option<DataEntry>>>)
    requires s == src && s.role == Source
    requires n < |plan| && plan[n] == Event(Source, GetAllTypes)
    requires s.journal.events == start + plan[..n]
    requires forall k :: 0 <= k < n ==> AnswerOf(src, dst, |start| + k, plan[k]).Ok?
    modifies s.journal
    ensures s.journal.events == start + plan[..n + 1]
    ensures r.Ok? ==> r.value == s.listing
    ensures r.Threw? ==> FirstThrow(src, dst, |start|, plan) == Some(n)
    ensures r.Ok? ==> forall k :: 0 <= k < n + 1 ==> AnswerOf(src, dst, |start| + k, plan[k]).Ok?
  {
    r := s.ReadAll();
    assert plan[..n + 1] == plan[..n] + [plan[n]];
    FirstThrowAfter(src, dst, |start|, plan, n);
  }

  /** The import events for the records of an array, null entries skipped, in array order. */
  function Imports(role: Role, entries: seq<Option<DataEntry>>): (es: seq<Event>)
    ensures |es| <= |entries|
  {
    if entries == [] then []
    else
      var init := Imports(role, entries[..|entries| - 1]);
      match entries[|entries| - 1]
      case None => init
      case Some(e) => init + [Event(role, ImportDataEntry(e))]
  }

  /** The import events of two arrays one after the other: those of the first, then those of the second. */
  lemma {:induction false} ImportsAppend(role: Role, a: seq<Option<DataEntry>>, b: seq<Option<DataEntry>>)
    ensures Imports(role, a + b) == Imports(role, a) + Imports(role, b)
  {
    if b != [] {
      var init := b[..|b| - 1];
      assert (a + b)[..|a + b| - 1] == a + init;
      ImportsAppend(role, a, init);
    } else {
      assert a + b == a;
    }
  }

  /** The import events of the first i entries come first. */
  lemma ImportsPrefix(role: Role, entries: seq<Option<DataEntry>>, i: nat)
    requires i <= |entries|
    ensures |Imports(role, entries[..i])| <= |Imports(role, entries)|
    ensures Imports(role, entries)[..|Imports(role, entries[..i])|] == Imports(role, entries[..i])
  {
    assert entries == entries[..i] + entries[i..];
    ImportsAppend(role, entries[..i], entries[i..]);
  }

  /** One more array entry: its import, when it is not null, follows those before it. */
  lemma ImportsSnoc(role: Role, entries: seq<Option<DataEntry>>, i: nat)
    requires i < |entries|
    ensures Imports(role, entries[..i + 1]) ==
      Imports(role, entries[..i]) + (if entries[i].Some? then [Event(role, ImportDataEntry(entries[i].value))] else [])
  {
    assert entries[..i + 1][..i] == entries[..i];
  }

  /** The records of the import events of a run of calls, in order (an independent reading of a journal). */
  function ImportedRecords(es: seq<Event>): seq<DataEntry>
  {
    if es == [] then []
    else ImportedRecords(es[..|es| - 1]) + (if es[|es| - 1].call.ImportDataEntry? then [es[|es| - 1].call.entry] else [])
  }

  /** The records of an array that are not null, in array order. */
  function NonNull(entries: seq<Option<DataEntry>>): seq<DataEntry>
  {
    if entries == [] then []
    else NonNull(entries[..|entries| - 1]) + (if entries[|entries| - 1].Some? then [entries[|entries| - 1].value] else [])
  }

  /** The records of a run of calls made one after another: those of the first, then those of the second. */
  lemma {:induction false} ImportedRecordsAppend(a: seq<Event>, b: seq<Event>)
    ensures ImportedRecords(a + b) == ImportedRecords(a) + ImportedRecords(b)
  {
    if b != [] {
      var init := b[..|b| - 1];
      assert (a + b)[..|a + b| - 1] == a + init;
      ImportedRecordsAppend(a, init);
    } else {
      assert a + b == a;
    }
  }

  /** The import events of an array import exactly its non-null records, each once, in array order. */
  lemma ImportsAreNonNull(role: Role, entries: seq<Option<DataEntry>>)
    ensures ImportedRecords(Imports(role, entries)) == NonNull(entries)
    ensures forall k :: 0 <= k < |Imports(role, entries)| ==>
      Imports(role, entries)[k].role == role && Imports(role, entries)[k].call.ImportDataEntry?
  {
    ImportsRecords(role, entries);
    ImportsAreImportCalls(role, entries);
  }

  /** The records of the import events of an array are its non-null records, in array order. */
  lemma {:induction false} ImportsRecords(role: Role, entries: seq<Option<DataEntry>>)
    ensures ImportedRecords(Imports(role, entries)) == NonNull(entries)
  {
    if entries != [] {
      var init := entries[..|entries| - 1];
      ImportsRecords(role, init);
      if entries[|entries| - 1].Some? {
        var ev := Event(role, ImportDataEntry(entries[|entries| - 1].value));
        ImportedRecordsAppend(Imports(role, init), [ev]);
        assert ImportedRecords([ev]) == [ev.call.entry] by {
          assert [ev][..0] == [];
        }
      }
    }
  }

  /** Every event the imports of an array make is an import call by the given role. */
  lemma {:induction false} ImportsAreImportCalls(role: Role, entries: seq<Option<DataEntry>>)
    ensures forall k :: 0 <= k < |Imports(role, entries)| ==>
      Imports(role, entries)[k].role == role && Imports(role, entries)[k].call.ImportDataEntry?
  {
    if entries != [] {
      ImportsAreImportCalls(role, entries[..|entries| - 1]);
    }
  }

  /** Only the import events of a run of calls show up in its records. */
  lemma {:induction false} NoImportsNoRecords(es: seq<Event>)
    requires forall k :: 0 <= k < |es| ==> !es[k].call.ImportDataEntry?
    ensures ImportedRecords(es) == []
  {
    if es != [] {
      NoImportsNoRecords(es[..|es| - 1]);
    }
  }

  /** The records imported by a prefix of a run are a prefix of its records. */
  lemma {:induction false} ImportedRecordsPrefix(es: seq<Event>, n: nat)
    requires n <= |es|
    ensures |ImportedRecords(es[..n])| <= |ImportedRecords(es)|
    ensures ImportedRecords(es)[..|ImportedRecords(es[..n])|] == ImportedRecords(es[..n])
  {
    assert es == es[..n] + es[n..];
    ImportedRecordsAppend(es[..n], es[n..]);
  }
}

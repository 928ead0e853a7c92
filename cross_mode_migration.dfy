/**
 * CrossModeMigration (Migration/CrossModeMigration.cs): copies every record of an SSM file of
 * one mode into an SSM file of another mode. Migrate is proved to make exactly the calls of
 * CrossPlan, up to and including the first that throws; the lemmas below say what that plan
 * guarantees about order, duplicates and closing.
 */
module CrossMigration {
  import opened Wrappers
  import opened Data
  import opened MigrationStore
  import Facade

  /** An SSM_File as the constructor sees it: a path and the mode it is opened in. */
  datatype SsmFile = SsmFile(path: string, mode: Facade.Mode)

  /** The calls before the first import: open both, read the source, close the source. */
  const Head: seq<Event> := [Event(Source, Open), Event(Destination, Open), Event(Source, GetAllTypes), Event(Source, Close)]

  /** The calls after the imports: stamp the migration, close the destination. */
  const Tail: seq<Event> := [Event(Destination, UpdateCrossModeMigrationStatus), Event(Destination, Close)]

  /** Every call Migrate makes when none throws, for the records `entries` the source lists. */
  function CrossPlan(entries: seq<Option<DataEntry>>): (plan: seq<Event>)
    ensures |plan| == 6 + |Imports(Destination, entries)|
  {
    Head + Imports(Destination, entries) + Tail
  }

  class CrossModeMigration {
    const importFile: SsmFile
    const exportFile: SsmFile

    /** The constructor once its check has passed (see NewCrossModeMigration). */
    constructor (importFile: SsmFile, exportFile: SsmFile)
      requires importFile.mode != exportFile.mode
      ensures this.importFile == importFile && this.exportFile == exportFile
    {
      this.importFile := importFile;
      this.exportFile := exportFile;
    }

    /**
     * Migrate on the SSM objects made from the two files. The calls of CrossPlan are made in
     * order until one throws; any exception is rethrown wrapped, and nothing after it is called.
     */
    method Migrate(src: Store, dst: Store) returns (r: Outcome<()>)
      requires src.role == Source && dst.role == Destination && src.journal == dst.journal
      modifies src.journal
      ensures var plan := CrossPlan(src.listing);
        var f := FirstThrow(src, dst, |old(src.journal.events)|, plan);
        src.journal.events == old(src.journal.events) + plan[..Made(f, plan)] &&
        r == if f.None? then Ok(()) else Threw(MigrationFailed)
    {
      ghost var plan := CrossPlan(src.listing);
      ghost var start := src.journal.events;
      var read := OpenAndRead(src, dst, start);
      if read.Threw? {
        return Threw(MigrationFailed);
      }
      var o := ImportAll(read.value, src, dst, start);
      if o.Threw? {
        return Threw(MigrationFailed);
      }
      o := StampAndClose(src, dst, start);
      if o.Threw? {
        return Threw(MigrationFailed);
      }
      FirstThrowAfter(src, dst, |start|, plan, |plan|);
      assert plan[..|plan|] == plan;
      return Ok(());
    }
  }

  /** The migration so far made the first n calls of the plan, from journal `start` on, and they all returned. */
  ghost predicate MadeReturning(src: Store, dst: Store, start: seq<Event>, n: nat)
    reads src.journal
  {
    var plan := CrossPlan(src.listing);
    n <= |plan| && src.journal.events == start + plan[..n] &&
    forall k :: 0 <= k < n ==> AnswerOf(src, dst, |start| + k, plan[k]).Ok?
  }

  /** The migration made the calls of the plan up to the first that threw. */
  ghost predicate MadeThrowing(src: Store, dst: Store, start: seq<Event>)
    reads src.journal
  {
    var plan := CrossPlan(src.listing);
    var f := FirstThrow(src, dst, |start|, plan);
    f.Some? && src.journal.events == start + plan[..Made(f, plan)]
  }

  /** The first four calls: open the source and the destination, read the source, close the source. */
  method OpenAndRead(src: Store, dst: Store, ghost start: seq<Event>) returns (r: Outcome<seq<Option<DataEntry>>>)
    requires src.role == Source && dst.role == Destination && src.journal == dst.journal
    requires src.journal.events == start
    modifies src.journal
    ensures r.Threw? ==> MadeThrowing(src, dst, start)
    ensures r.Ok? ==> r.value == src.listing && MadeReturning(src, dst, start, 4)
  {
    ghost var plan := CrossPlan(src.listing);
    assert plan[..0] == [];
    var o := Step(src, Open, src, dst, start, plan, 0);
    if o.Threw? {
      return Threw(o.error);
    }
    o := Step(dst, Open, src, dst, start, plan, 1);
    if o.Threw? {
      return Threw(o.error);
    }
    r := ReadStep(src, src, dst, start, plan, 2);
    if r.Threw? {
      return r;
    }
    o := Step(src, Close, src, dst, start, plan, 3);
    if o.Threw? {
      return Threw(o.error);
    }
  }

  /** The foreach loop: each non-null record is imported into the destination, in array order. */
  method ImportAll(entries: seq<Option<DataEntry>>, src: Store, dst: Store, ghost start: seq<Event>) returns (r: Outcome<()>)
    requires src.role == Source && dst.role == Destination && src.journal == dst.journal
    requires entries == src.listing && MadeReturning(src, dst, start, 4)
    modifies src.journal
    ensures r.Threw? ==> MadeThrowing(src, dst, start)
    ensures r.Ok? ==> MadeReturning(src, dst, start, 4 + |Imports(Destination, entries)|)
  {
    var i := 0;
    while i < |entries|
      invariant 0 <= i <= |entries|
      invariant MadeReturning(src, dst, start, 4 + |Imports(Destination, entries[..i])|)
    {
      if entries[i].Some? {
        var o := ImportOne(entries, i, src, dst, start);
        if o.Threw? {
          return Threw(o.error);
        }
      } else {
        CrossPlanStep(entries, i);
      }
      i := i + 1;
    }
    assert entries[..i] == entries;
    return Ok(());
  }

  /** One pass of the loop on a non-null entry: ImportDataEntry of its record. */
  method ImportOne(entries: seq<Option<DataEntry>>, i: nat, src: Store, dst: Store, ghost start: seq<Event>) returns (r: Outcome<()>)
    requires src.role == Source && dst.role == Destination && src.journal == dst.journal
    requires entries == src.listing && i < |entries| && entries[i].Some?
    requires MadeReturning(src, dst, start, 4 + |Imports(Destination, entries[..i])|)
    modifies src.journal
    ensures r.Threw? ==> MadeThrowing(src, dst, start)
    ensures r.Ok? ==> MadeReturning(src, dst, start, 4 + |Imports(Destination, entries[..i + 1])|)
  {
    CrossPlanStep(entries, i);
    r := Step(dst, ImportDataEntry(entries[i].value), src, dst, start, CrossPlan(entries), 4 + |Imports(Destination, entries[..i])|);
  }

  /** The last two calls: stamp the migration on the destination, then close it. */
  method StampAndClose(src: Store, dst: Store, ghost start: seq<Event>) returns (r: Outcome<()>)
    requires src.role == Source && dst.role == Destination && src.journal == dst.journal
    requires MadeReturning(src, dst, start, 4 + |Imports(Destination, src.listing)|)
    modifies src.journal
    ensures r.Threw? ==> MadeThrowing(src, dst, start)
    ensures r.Ok? ==> MadeReturning(src, dst, start, |CrossPlan(src.listing)|)
  {
    ghost var plan := CrossPlan(src.listing);
    ghost var n := 4 + |Imports(Destination, src.listing)|;
    CrossPlanEnd(src.listing);
    r := Step(dst, UpdateCrossModeMigrationStatus, src, dst, start, plan, n);
    if r.Threw? {
      return r;
    }
    r := Step(dst, Close, src, dst, start, plan, n + 1);
  }

  /** `new CrossModeMigration(importFile, exportFile)`: throws when both files have the same mode. */
  method NewCrossModeMigration(importFile: SsmFile, exportFile: SsmFile) returns (r: Outcome<CrossModeMigration>)
    ensures r.Threw? <==> importFile.mode == exportFile.mode
    ensures r.Threw? ==> r.error == SameModeMigration
    ensures r.Ok? ==> fresh(r.value) && r.value.importFile == importFile && r.value.exportFile == exportFile
  {
    if importFile.mode == exportFile.mode {
      return Threw(SameModeMigration);
    }
    var m := new CrossModeMigration(importFile, exportFile);
    return Ok(m);
  }

  /** Position by position inside the import loop: the calls made so far, then the next import. */
  lemma CrossPlanStep(entries: seq<Option<DataEntry>>, i: nat)
    requires i < |entries|
    ensures var n := 4 + |Imports(Destination, entries[..i])|;
      var plan := CrossPlan(entries);
      n <= |plan| && plan[..n] == Head + Imports(Destination, entries[..i]) &&
      (entries[i].Some? ==> n < |plan| && plan[n] == Event(Destination, ImportDataEntry(entries[i].value))) &&
      4 + |Imports(Destination, entries[..i + 1])| == n + (if entries[i].Some? then 1 else 0)
  {
    var im := Imports(Destination, entries);
    ImportsPrefix(Destination, entries, i);
    ImportsPrefix(Destination, entries, i + 1);
    ImportsSnoc(Destination, entries, i);
    var n := 4 + |Imports(Destination, entries[..i])|;
    assert CrossPlan(entries)[..n] == Head + im[..n - 4];
    if entries[i].Some? {
      assert im[n - 4] == Imports(Destination, entries[..i + 1])[n - 4];
    }
  }

  /** After the import loop: the calls made so far, then the stamp and the close. */
  lemma CrossPlanEnd(entries: seq<Option<DataEntry>>)
    ensures var n := 4 + |Imports(Destination, entries)|;
      var plan := CrossPlan(entries);
      plan[..n] == Head + Imports(Destination, entries) &&
      plan[n] == Event(Destination, UpdateCrossModeMigrationStatus) && plan[n + 1] == Event(Destination, Close)
  {
  }

  /**
   * The source is opened, read and closed before anything is imported and receives no call
   * after that; every import goes to the destination.
   */
  lemma SourceDoneBeforeImports(entries: seq<Option<DataEntry>>)
    ensures var plan := CrossPlan(entries);
      plan[2] == Event(Source, GetAllTypes) && plan[3] == Event(Source, Close) &&
      (forall k :: 0 <= k < |plan| && plan[k].role == Source ==> k < 4) &&
      (forall k :: 0 <= k < |plan| && plan[k].call.ImportDataEntry? ==> 4 <= k && plan[k].role == Destination)
  {
    var plan := CrossPlan(entries);
    var im := Imports(Destination, entries);
    ImportsAreNonNull(Destination, entries);
    forall k | 4 <= k < |plan|
      ensures plan[k].role == Destination
    {
      if k < 4 + |im| {
        assert plan[k] == im[k - 4];
      }
    }
  }

  /** The calls import exactly the source's non-null records, each once and in array order. */
  lemma ImportsEachRecordOnce(entries: seq<Option<DataEntry>>)
    ensures ImportedRecords(CrossPlan(entries)) == NonNull(entries)
  {
    var im := Imports(Destination, entries);
    ImportsAreNonNull(Destination, entries);
    ImportedRecordsAppend(Head + im, Tail);
    ImportedRecordsAppend(Head, im);
    NoImportsNoRecords(Head);
    NoImportsNoRecords(Tail);
  }

  /**
   * The migration is stamped exactly once, after every import and just before the destination is
   * closed, which is the last call.
   */
  lemma StampedOnceThenClosed(entries: seq<Option<DataEntry>>)
    ensures var plan := CrossPlan(entries);
      plan[|plan| - 1] == Event(Destination, Close) &&
      (forall k :: 0 <= k < |plan| ==> (plan[k].call.UpdateCrossModeMigrationStatus? <==> k == |plan| - 2)) &&
      (forall k :: 0 <= k < |plan| && plan[k].call.ImportDataEntry? ==> k < |plan| - 2)
  {
    var plan := CrossPlan(entries);
    var im := Imports(Destination, entries);
    ImportsAreNonNull(Destination, entries);
    forall k | 0 <= k < |plan| - 2
      ensures !plan[k].call.UpdateCrossModeMigrationStatus?
    {
      if 4 <= k {
        assert plan[k] == im[k - 4];
      }
    }
  }

  /**
   * When a call throws, the destination has not been closed, unless closing it is the call that
   * threw; and the records imported before the failure stay imported: they are the first
   * non-null records of the source, in order.
   */
  lemma FailureLeavesDestinationOpen(entries: seq<Option<DataEntry>>, j: nat)
    requires j < |CrossPlan(entries)|
    ensures j < |CrossPlan(entries)| - 1 ==> Event(Destination, Close) !in CrossPlan(entries)[..j + 1]
    ensures var done := ImportedRecords(CrossPlan(entries)[..j + 1]);
      |done| <= |NonNull(entries)| && NonNull(entries)[..|done|] == done
  {
    var plan := CrossPlan(entries);
    var im := Imports(Destination, entries);
    ImportsAreNonNull(Destination, entries);
    forall k | 4 <= k < |plan| - 2
      ensures plan[k].call.ImportDataEntry?
    {
      assert plan[k] == im[k - 4];
    }
    ImportsEachRecordOnce(entries);
    ImportedRecordsPrefix(plan, j + 1);
  }
}

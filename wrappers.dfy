/** Option for nullable results and Outcome for calls that may throw. */
module Wrappers {

  datatype Option<+T> = None | Some(value: T)

  /** The exception classes the modelled code can raise. */
  datatype Error =
    | FormatError          // FormatException from Convert.ToX / Boolean.Parse
    | OverflowError        // OverflowException from Convert.ToX
    | ArgumentError        // ArgumentException from BitConverter.ToX on a too short array
    | InvalidCast          // InvalidCastException from a cast such as (byte[])reader[..]
    | NullReference        // NullReferenceException from a missing child node or attribute
    | NotImplemented       // NotImplementedException
    | XPathError           // XPathException from SelectNodes on a query that is not a valid XPath path
    | InvalidOperation     // InvalidOperationException from a command whose connection is missing or closed
    | XmlError             // XmlException from saving a document that has no root element
    | SqlError             // SQLiteException, e.g. INSERT into a table that does not exist
    | MigrationFailed      // the wrapping Exception thrown by a migration's catch block
    | SameModeMigration    // the Exception thrown by CrossModeMigration's constructor
    | FileNotFound         // FileNotFoundException from opening a file that is not there
    | InvalidSourceFile    // the Exception thrown by XmlSettingsMigration's constructor
    | LoadFailed           // the "Loading XML Failed" Exception, thrown when an XML file cannot be loaded

  /** The result of a call: the value it returned, or the exception it threw. */
  datatype Outcome<+T> = Ok(value: T) | Threw(error: Error)

  /** The results of calls made one after another: all their values, or the exception of the first that threw. */
  function Sequence<T>(os: seq<Outcome<T>>): (r: Outcome<seq<T>>)
    ensures r.Ok? ==> |r.value| == |os|
  {
    if os == [] then Ok([])
    else
      match Sequence(os[..|os| - 1])
      case Threw(e) => Threw(e)
      case Ok(init) =>
        match os[|os| - 1]
        case Threw(e) => Threw(e)
        case Ok(x) => Ok(init + [x])
  }

  /**
   * The run succeeds exactly when every call does, and then holds value k at position k;
   * otherwise it throws what the first failing call throws.
   */
  lemma {:induction false} SequenceListing<T>(os: seq<Outcome<T>>)
    ensures Sequence(os).Ok? <==> forall k :: 0 <= k < |os| ==> os[k].Ok?
    ensures Sequence(os).Ok? ==> forall k :: 0 <= k < |os| ==> os[k] == Ok(Sequence(os).value[k])
    ensures Sequence(os).Threw? ==>
      exists k :: 0 <= k < |os| && os[k] == Threw(Sequence(os).error) && forall j :: 0 <= j < k ==> os[j].Ok?
  {
    if os != [] {
      var init := os[..|os| - 1];
      assert forall k :: 0 <= k < |init| ==> init[k] == os[k];
      SequenceListing(init);
    }
  }

  /** When the calls before j all return and call j throws, the run throws what call j threw. */
  lemma SequenceFirstThrow<T>(os: seq<Outcome<T>>, j: nat)
    requires j < |os| && Sequence(os[..j]).Ok? && os[j].Threw?
    ensures Sequence(os) == Threw(os[j].error)
  {
    SequenceListing(os[..j]);
    SequenceListing(os);
    assert forall k :: 0 <= k < j ==> os[k] == os[..j][k];
    var k :| 0 <= k < |os| && os[k] == Threw(Sequence(os).error) && forall i :: 0 <= i < k ==> os[i].Ok?;
    assert k == j;
  }

  /** One more call: the run so far, then that call's value or exception. */
  lemma SequenceSnoc<T>(os: seq<Outcome<T>>, o: Outcome<T>)
    ensures Sequence(os + [o]) ==
      match Sequence(os)
      case Threw(e) => Threw(e)
      case Ok(vs) => (match o case Threw(e) => Threw(e) case Ok(x) => Ok(vs + [x]))
  {
    assert (os + [o])[..|os|] == os;
  }

  /** f applied to each element, in order. */
  function Map<A, B>(f: A -> B, xs: seq<A>): (ys: seq<B>)
    ensures |ys| == |xs|
  {
    if xs == [] then [] else Map(f, xs[..|xs| - 1]) + [f(xs[|xs| - 1])]
  }

  /** A prefix one longer is the shorter prefix and the next element. */
  lemma TakeSnoc<T>(s: seq<T>, k: nat)
    requires k < |s|
    ensures s[..k + 1] == s[..k] + [s[k]]
  {
  }

  /** A suffix is its first element and the suffix after it. */
  lemma DropCons<T>(s: seq<T>, k: nat)
    requires k < |s|
    ensures s[k..] == [s[k]] + s[k + 1..]
  {
  }

  /** Element k of the mapped sequence is f of element k. */
  lemma {:induction false} MapAt<A, B>(f: A -> B, xs: seq<A>, k: nat)
    requires k < |xs|
    ensures Map(f, xs)[k] == f(xs[k])
  {
    var init := xs[..|xs| - 1];
    if k < |init| {
      MapAt(f, init, k);
      assert init[k] == xs[k];
    }
  }

  /** Mapping one more element appends its image. */
  lemma MapSnoc<A, B>(f: A -> B, xs: seq<A>, k: nat)
    requires k < |xs|
    ensures Map(f, xs[..k + 1]) == Map(f, xs[..k]) + [f(xs[k])]
  {
    assert xs[..k + 1][..k] == xs[..k];
  }
}

/** Releases with different views of one document: what every run of their writes keeps. */
module Views {

  import opened Values
  import opened Contracts
  import opened Relations
  import opened Coexistence
  import opened Lens
  import opened Redundancy
  import opened LeastViews
  import Releases

  /**
   Where coexistence asks for equivalent contracts only, the writer's contract is irredundant. The
   recursion follows the cases of `CanCoexist`: fields and items are compared in their own right, and
   variants one by one, so that a union may hold variants inside one another as long as both views do.
   */
  predicate Steady(writer: Contract, reader: Contract)
    decreases writer
  {
    if writer.Object? && reader.Object? then
      forall k :: k in writer.fields && k in reader.fields ==> Steady(writer.fields[k], reader.fields[k])
    else if writer.Array? && reader.Array? then Steady(writer.items, reader.items)
    else if writer.Union? && reader.Union? then
      forall i :: 0 <= i < |writer.variants| ==> Irredundant(writer.variants[i])
    else Irredundant(writer)
  }

  /** An irredundant writer is steady for every reader. */
  lemma {:induction false} IrredundantIsSteady(writer: Contract, reader: Contract)
    requires Irredundant(writer)
    ensures Steady(writer, reader)
    decreases writer
  {
    if writer.Object? && reader.Object? {
      forall k | k in writer.fields && k in reader.fields ensures Steady(writer.fields[k], reader.fields[k]) {
        IrredundantIsSteady(writer.fields[k], reader.fields[k]);
      }
    } else if writer.Array? && reader.Array? {
      IrredundantIsSteady(writer.items, reader.items);
    }
  }

  /** A steady writer keeps the stored value readable by `reader`, whatever it writes. */
  lemma {:induction false} SteadyKeepsReadable(writer: Contract, reader: Contract, stored: Option<Value>, r: Value)
    requires CanCoexist(writer, reader) && Steady(writer, reader)
    requires stored.Some? ==> Project(reader, stored.value).Some?
    requires Accepts(writer, r)
    ensures Project(reader, Merge(writer, stored, r)).Some?
    decreases writer
  {
    if stored.None? {
      CoexistReadable(writer, reader, r);
    } else if writer.Object? && reader.Object? {
      SteadyKeepsReadableObject(writer, reader, stored, r);
    } else if writer.Array? && reader.Array? {
      forall i | 0 <= i < |r.items|
        ensures Project(reader.items, Merge(writer.items, Item(stored, i), r.items[i])).Some?
      {
        SteadyKeepsReadable(writer.items, reader.items, Item(stored, i), r.items[i]);
      }
    } else if writer.Union? && reader.Union? {
      SteadyKeepsReadableUnion(writer, reader, stored, r);
    } else {
      MergedIsProjectable(writer, stored, r);
      EquivalentReads(writer, reader, Merge(writer, stored, r));
    }
  }

  lemma {:induction false} SteadyKeepsReadableObject(writer: Contract, reader: Contract, stored: Option<Value>,
      r: Value)
    requires writer.Object? && reader.Object? && stored.Some?
    requires CanCoexist(writer, reader) && Steady(writer, reader)
    requires Project(reader, stored.value).Some?
    requires Accepts(writer, r)
    ensures Project(reader, Merge(writer, stored, r)).Some?
    decreases writer, 0
  {
    var merged := Merge(writer, stored, r).entries;
    forall k | k in reader.fields
      ensures if k in merged then Project(reader.fields[k], merged[k]).Some? else k in reader.optional
    {
      if k in writer.fields && k in merged {
        SteadyKeepsReadable(writer.fields[k], reader.fields[k], Field(stored, k), r.entries[k]);
      }
    }
  }

  /** The variant that writes has an equivalent one on the other side, whatever was stored. */
  lemma {:induction false} SteadyKeepsReadableUnion(writer: Contract, reader: Contract, stored: Option<Value>,
      r: Value)
    requires writer.Union? && reader.Union?
    requires CanCoexist(writer, reader) && Steady(writer, reader) && Accepts(writer, r)
    ensures Project(reader, Merge(writer, stored, r)).Some?
  {
    var variant := writer.variants[FirstAccepting(writer.variants, r)];
    assert HasMatch(variant, reader.variants);
    var j :| 0 <= j < |reader.variants| && Equivalent(variant, reader.variants[j]);
    MergedIsProjectable(variant, stored, r);
    EquivalentReads(variant, reader.variants[j], Merge(variant, stored, r));
    UnionReads(reader, j, Merge(writer, stored, r));
  }

  /** A replacement that cannot lock the reader out: the writer is steady, or the least view reads the result. */
  predicate Safe(writer: Contract, reader: Contract, merged: Value) {
    Steady(writer, reader) || Project(LeastView(writer), merged).Some?
  }

  /** One safe replacement through `writer` keeps the stored value readable by `reader`. */
  lemma ReplaceKeepsReadable(writer: Contract, reader: Contract, stored: Option<Value>, r: Value)
    requires CanCoexist(writer, reader) && Accepts(writer, r) && Safe(writer, reader, Merge(writer, stored, r))
    requires stored.Some? ==> Project(reader, stored.value).Some?
    ensures Project(reader, Merge(writer, stored, r)).Some?
  {
    if Steady(writer, reader) {
      SteadyKeepsReadable(writer, reader, stored, r);
    } else {
      LeastSuffices(writer, reader, stored, r);
    }
  }

  // ---------------------------------------------------------------- runs

  datatype Action =
    | Insert(view: nat, value: Value)
    | Replace(view: nat, value: Value)
    | Delete

  /** The views of the Releases sharing one table: accepted pairwise in both argument orders. */
  predicate SharedViews(views: seq<Contract>) {
    forall i, j :: 0 <= i < |views| && 0 <= j < |views| && i != j ==> CanCoexist(views[i], views[j])
  }

  /** A write is performed only when valid in its writer's view. */
  predicate Allowed(views: seq<Contract>, document: Option<Value>, action: Action) {
    match action
    case Insert(view, value) => document.None? && view < |views| && Accepts(views[view], value)
    case Replace(view, value) => document.Some? && view < |views| && Accepts(views[view], value)
    case Delete => document.Some?
  }

  function Perform(views: seq<Contract>, document: Option<Value>, action: Action): Option<Value>
    requires Allowed(views, document, action)
  {
    match action
    case Insert(_, value) => Some(value)
    case Replace(view, value) => Some(Merge(views[view], document, value))
    case Delete => None
  }

  /** The successive contents of one document. */
  predicate IsRun(views: seq<Contract>, actions: seq<Action>, documents: seq<Option<Value>>) {
    && |documents| == |actions| + 1
    && documents[0] == None
    && forall n :: 0 <= n < |actions| ==>
         Allowed(views, documents[n], actions[n]) && documents[n + 1] == Perform(views, documents[n], actions[n])
  }

  predicate ReadableByAll(views: seq<Contract>, document: Option<Value>) {
    document.Some? ==> forall i :: 0 <= i < |views| ==> Project(views[i], document.value).Some?
  }

  /** If step `n` is a replacement, it is safe for every other view. */
  predicate SafeStep(views: seq<Contract>, actions: seq<Action>, documents: seq<Option<Value>>, n: nat)
    requires IsRun(views, actions, documents) && n < |actions|
  {
    actions[n].Replace? ==>
      forall i :: 0 <= i < |views| && i != actions[n].view ==>
        Safe(views[actions[n].view], views[i], Perform(views, documents[n], actions[n]).value)
  }

  /** While every replacement of a run is safe, every Release can read the document at every moment. */
  lemma {:induction false} RunStaysReadable(views: seq<Contract>, actions: seq<Action>, documents: seq<Option<Value>>,
      n: nat)
    requires SharedViews(views) && IsRun(views, actions, documents) && n < |documents|
    requires forall m :: 0 <= m < n ==> SafeStep(views, actions, documents, m)
    ensures ReadableByAll(views, documents[n])
  {
    if n > 0 {
      RunStaysReadable(views, actions, documents, n - 1);
      assert SafeStep(views, actions, documents, n - 1);
      match actions[n - 1]
      case Insert(view, value) =>
        forall i | 0 <= i < |views| ensures Project(views[i], value).Some? {
          CoexistReflexive(views[view]);
          CoexistReadable(views[view], views[i], value);
        }
      case Replace(view, value) =>
        forall i | 0 <= i < |views| ensures Project(views[i], documents[n].value).Some? {
          if i == view {
            MergedIsProjectable(views[view], documents[n - 1], value);
          } else {
            ReplaceKeepsReadable(views[view], views[i], documents[n - 1], value);
          }
        }
      case Delete =>
    }
  }

  /**
   Each replacement of a run leaves everything outside the writer's view as it was, and is read back
   exactly where no earlier variant shadows the written one, as with no object beneath a union.
   */
  lemma RunReplaces(views: seq<Contract>, actions: seq<Action>, documents: seq<Option<Value>>, n: nat, path: seq<Step>)
    requires IsRun(views, actions, documents) && n < |actions| && actions[n].Replace?
    ensures documents[n].Some? && documents[n + 1].Some?
    ensures Project(views[actions[n].view], documents[n + 1].value) == Some(actions[n].value) <==>
            Unshadowed(views[actions[n].view], documents[n], actions[n].value)
    ensures Flat(views[actions[n].view]) ==> Unshadowed(views[actions[n].view], documents[n], actions[n].value)
    ensures LeavesView(views[actions[n].view], documents[n].value, actions[n].value, path) ==>
              Lookup(documents[n + 1].value, path) == Lookup(documents[n].value, path)
  {
    var writer := views[actions[n].view];
    ReadAfterReplace(writer, documents[n], actions[n].value);
    if Flat(writer) {
      FlatIsUnshadowed(writer, documents[n], actions[n].value);
    }
    if LeavesView(writer, documents[n].value, actions[n].value, path) {
      ReplacePreservesUnknown(writer, documents[n].value, actions[n].value, path);
    }
  }

  // ---------------------------------------------------------------- from coexisting Releases to shared views

  /** The view of one table that a Release declaring it has. */
  function ViewOf(p: Releases.Package, table: Text): Contract
    requires p.schema.Some? && Releases.TableWithId(p.schema.value, table).Some?
  {
    Releases.TableWithId(p.schema.value, table).value.document
  }

  /** The Releases all declare the table, with these views, and the engine accepts them pairwise. */
  predicate Accepted(releases: seq<Releases.Package>, table: Text, views: seq<Contract>) {
    && |views| == |releases|
    && (forall i :: 0 <= i < |releases| ==>
          && releases[i].schema.Some? && Releases.TableWithId(releases[i].schema.value, table).Some?
          && views[i] == ViewOf(releases[i], table))
    && forall i, j :: 0 <= i < |releases| && 0 <= j < |releases| && i != j ==>
         Releases.Coexist(releases[i], releases[j])
  }

  lemma AcceptedReleasesShareViews(releases: seq<Releases.Package>, table: Text, views: seq<Contract>)
    requires Accepted(releases, table, views)
    ensures SharedViews(views)
  {
    forall i, j | 0 <= i < |views| && 0 <= j < |views| && i != j ensures CanCoexist(views[i], views[j]) {
      assert Releases.Coexist(releases[i], releases[j]);
      assert Releases.TableWithId(releases[i].schema.value, table).value in releases[i].schema.value;
    }
  }

  /** Releases accepted pairwise keep reading the documents of every table they all declare. */
  lemma AcceptedReleasesStayReadable(releases: seq<Releases.Package>, table: Text, views: seq<Contract>,
      actions: seq<Action>, documents: seq<Option<Value>>, n: nat)
    requires Accepted(releases, table, views) && IsRun(views, actions, documents) && n < |documents|
    requires forall m :: 0 <= m < n ==> SafeStep(views, actions, documents, m)
    ensures ReadableByAll(views, documents[n])
  {
    AcceptedReleasesShareViews(releases, table, views);
    RunStaysReadable(views, actions, documents, n);
  }
}

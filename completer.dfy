/** completer.py: the first indexer, which runs `odin query` when the completer is created and
    whose per-package accessors keep what the list already holds. The subprocess is a
    parameter: `query` is the decoded output of `odin query`. */
module Completer {
  import opened Base
  import opened Strings
  import opened Parser
  import opened PackageIndex

  /** One turn of the loop over `definitions`: the accessor creates the list when absent, then
      the entry is computed and appended; an exception leaves the created list behind. */
  function AccumulatingStep(t: Tables, d: DefinitionRecord): (Tables, Option<PyError>) {
    match TableOf(d.kind)
    case None => (t, None)
    case Some(table) =>
      var list := Lookup(t.Get(table), d.package);
      match EntryOf(d, table, LabelStyle)
      case Raise(e) => (t.Put(table, d.package, list), Some(e))
      case Ok(entry) => (t.Put(table, d.package, list + [entry]), None)
  }

  /** The loop over `definitions`, stopping at the first exception. */
  function AccumulatingIndex(t: Tables, defs: seq<DefinitionRecord>): (Tables, Option<PyError>) {
    if |defs| == 0 then (t, None)
    else
      var prev := AccumulatingIndex(t, defs[..|defs| - 1]);
      if prev.1.Some? then prev else AccumulatingStep(prev.0, defs[|defs| - 1])
  }

  /** One more definition, after a prefix that raised nothing, is one more step. */
  lemma AccumulatingIndexSnoc(t: Tables, defs: seq<DefinitionRecord>, i: nat)
    requires i < |defs| && AccumulatingIndex(t, defs[..i]).1.None?
    ensures AccumulatingIndex(t, defs[..i + 1]) == AccumulatingStep(AccumulatingIndex(t, defs[..i]).0, defs[i])
  {
    assert defs[..i + 1][..i] == defs[..i];
  }

  /** Once an exception is raised, the later definitions are not looked at. */
  lemma {:induction false} AccumulatingIndexStops(t: Tables, defs: seq<DefinitionRecord>, k: nat)
    requires k <= |defs| && AccumulatingIndex(t, defs[..k]).1.Some?
    ensures AccumulatingIndex(t, defs) == AccumulatingIndex(t, defs[..k])
  {
    if k < |defs| {
      assert defs[..|defs| - 1][..k] == defs[..k];
      AccumulatingIndexStops(t, defs[..|defs| - 1], k);
    } else {
      assert defs[..k] == defs;
    }
  }

  /** When no exception is raised, the list of each package is what it held before followed
      by the entries of the definitions for it, in the order of the definitions. */
  lemma {:induction false} AccumulatingAppends(t: Tables, defs: seq<DefinitionRecord>, table: Table, package: string)
    requires AccumulatingIndex(t, defs).1.None?
    ensures Lookup(AccumulatingIndex(t, defs).0.Get(table), package)
      == Lookup(t.Get(table), package) + EntriesFor(defs, table, package, LabelStyle)
  {
    if |defs| > 0 {
      var init := defs[..|defs| - 1];
      var d := defs[|defs| - 1];
      var prev := AccumulatingIndex(t, init);
      AccumulatingAppends(t, init, table, package);
      match TableOf(d.kind)
      case None =>
      case Some(tb) =>
        var list := Lookup(prev.0.Get(tb), d.package);
        var entry := EntryOf(d, tb, LabelStyle).value;
        PutLookup(prev.0, tb, d.package, list + [entry], table, package);
        AppendAssoc(Lookup(t.Get(table), package), EntriesFor(init, table, package, LabelStyle), [entry]);
    }
  }

  /** Indexing the same output twice without an exception holds every entry twice. */
  lemma IndexingTwiceDuplicates(t: Tables, defs: seq<DefinitionRecord>, table: Table, package: string)
    requires AccumulatingIndex(t, defs).1.None?
    requires AccumulatingIndex(AccumulatingIndex(t, defs).0, defs).1.None?
    ensures var es := EntriesFor(defs, table, package, LabelStyle);
      Lookup(AccumulatingIndex(AccumulatingIndex(t, defs).0, defs).0.Get(table), package)
      == Lookup(t.Get(table), package) + es + es
  {
    AccumulatingAppends(t, defs, table, package);
    AccumulatingAppends(AccumulatingIndex(t, defs).0, defs, table, package);
  }

  class Completer {
    /** The class attributes, shared by every instance. */
    const tables: PackageTables

    constructor Attach(tables: PackageTables)
      ensures this.tables == tables
    {
      this.tables := tables;
    }

    /** `Completer(current_file)`: `__init__` indexes the file; when `index_file` raises, no
        completer is made but the shared tables keep what was added before. */
    static method Create(tables: PackageTables, query: QueryOutput) returns (r: Outcome<Completer>)
      modifies tables
      ensures var a := AccumulatingIndex(old(tables.State()), query.definitions);
        && tables.State() == a.0
        && tables.packages == old(tables.packages) + IndexedPackageNames(query.packages)
        && (r.Raise? <==> a.1.Some?)
        && (r.Raise? ==> a.1 == Some(r.error))
      ensures r.Ok? ==> r.value.tables == tables
    {
      var c := new Completer.Attach(tables);
      var error := c.IndexFile(query);
      if error.Some? {
        return Raise(error.value);
      }
      r := Ok(c);
    }

    /** `procs_for_package`, `types_for_package` and `vars_for_package`: the list of the
        package, created empty when absent. */
    method ForPackage(table: Table, package: string) returns (list: seq<Entry>)
      modifies tables
      ensures list == Lookup(old(tables.State()).Get(table), package)
      ensures tables.State() == old(tables.State()).Put(table, package, list)
      ensures tables.packages == old(tables.packages)
    {
      var current := tables.State().Get(table);
      if package !in current {
        tables.SetList(table, package, []);
        list := [];
      } else {
        list := current[package];
        tables.SetList(table, package, list);
      }
    }

    /** `gen_completion_for_proc`: the inserted text is built and dropped. */
    method GenCompletionForProc(package: string, name: string, sig: Option<string>) returns (r: Outcome<Entry>)
      ensures r == ProcLabelEntry(package, name, sig)
    {
      var parsed := ProcSignatureOf(name, sig);
      if parsed.Raise? {
        return Raise(parsed.error);
      }
      var result := BuildInsertText(name, parsed.value.params);
      r := Ok(LabelOnly(parsed.value.trigger + "\t" + package));
    }

    /** The loop over `definitions` of `index_file`. */
    method IndexDefinitions(defs: seq<DefinitionRecord>) returns (error: Option<PyError>)
      modifies tables
      ensures (tables.State(), error) == AccumulatingIndex(old(tables.State()), defs)
      ensures tables.packages == old(tables.packages)
    {
      for i := 0 to |defs|
        invariant (tables.State(), None) == AccumulatingIndex(old(tables.State()), defs[..i])
        invariant tables.packages == old(tables.packages)
      {
        var d := defs[i];
        ghost var prev := tables.State();
        AccumulatingIndexSnoc(old(tables.State()), defs, i);
        var kind := TableOf(d.kind);
        if kind.None? {
          continue;
        }
        var table := kind.value;
        var list := ForPackage(table, d.package);
        var entry: Outcome<Entry>;
        if table == Procs {
          entry := GenCompletionForProc(d.package, d.name, d.typ);
        } else {
          entry := EntryOf(d, table, LabelStyle);
        }
        assert entry == EntryOf(d, table, LabelStyle);
        if entry.Raise? {
          error := Some(entry.error);
          AccumulatingIndexStops(old(tables.State()), defs, i + 1);
          return;
        }
        tables.SetList(table, d.package, list + [entry.value]);
        PutTwice(prev, table, d.package, list, list + [entry.value]);
      }
      assert defs[..|defs|] == defs;
      error := None;
    }

    /** `index_file`: the package names, then the definitions. */
    method IndexFile(query: QueryOutput) returns (error: Option<PyError>)
      modifies tables
      ensures (tables.State(), error) == AccumulatingIndex(old(tables.State()), query.definitions)
      ensures tables.packages == old(tables.packages) + IndexedPackageNames(query.packages)
    {
      tables.AddPackages(query.packages);
      error := IndexDefinitions(query.definitions);
    }
  }
}

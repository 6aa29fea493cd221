/** odin_completer.py: the indexer that re-runs `odin query` when the file changes or a minute
    has passed, and whose per-package accessors empty the list before returning it. The clock,
    the file read and the subprocess are parameters: `now` and `finishedAt` are the two readings
    of `time.time()` in whole seconds, `contents` the text of the file, `query` the decoded
    output of `odin query`. */
module OdinCompleter {
  import opened Base
  import opened Strings
  import opened Parser
  import opened PackageIndex

  const FullReindexIntervalSecs: int := 60

  /** The decision of `needs_reindex`: another file than the last one, or more than the
      interval since the last complete index. */
  predicate NeedsReindexOf(lastFile: string, lastFullSecs: int, currentFile: string, now: int) {
    lastFile != currentFile || now - lastFullSecs > FullReindexIntervalSecs
  }

  /** A fresh completer (no file indexed, last index one interval before time zero) indexes
      any file at any time after zero. */
  lemma FreshCompleterReindexes(currentFile: string, now: int)
    requires now > 0
    ensures NeedsReindexOf("", -FullReindexIntervalSecs, currentFile, now)
  {
  }

  /** The same file again, within the interval of the last complete index, is not indexed. */
  lemma SameFileWithinIntervalSkipped(file: string, lastFullSecs: int, now: int)
    ensures !NeedsReindexOf(file, lastFullSecs, file, now) <==> now - lastFullSecs <= FullReindexIntervalSecs
  {
  }

  /** One turn of the loop over `definitions`: the accessor empties the list, then the entry
      is computed and appended; an exception leaves the emptied list behind. */
  function ReplacingStep(t: Tables, d: DefinitionRecord): (Tables, Option<PyError>) {
    match TableOf(d.kind)
    case None => (t, None)
    case Some(table) =>
      var cleared := t.Put(table, d.package, []);
      match EntryOf(d, table, PairStyle)
      case Raise(e) => (cleared, Some(e))
      case Ok(entry) => (cleared.Put(table, d.package, [entry]), None)
  }

  /** The loop over `definitions`, stopping at the first exception. */
  function ReplacingIndex(t: Tables, defs: seq<DefinitionRecord>): (Tables, Option<PyError>) {
    if |defs| == 0 then (t, None)
    else
      var prev := ReplacingIndex(t, defs[..|defs| - 1]);
      if prev.1.Some? then prev else ReplacingStep(prev.0, defs[|defs| - 1])
  }

  /** Once an exception is raised, the later definitions are not looked at. */
  lemma {:induction false} ReplacingIndexStops(t: Tables, defs: seq<DefinitionRecord>, k: nat)
    requires k <= |defs| && ReplacingIndex(t, defs[..k]).1.Some?
    ensures ReplacingIndex(t, defs) == ReplacingIndex(t, defs[..k])
  {
    if k < |defs| {
      assert defs[..|defs| - 1][..k] == defs[..k];
      ReplacingIndexStops(t, defs[..|defs| - 1], k);
    } else {
      assert defs[..k] == defs;
    }
  }

  /** One more definition, after a prefix that raised nothing, is one more step. */
  lemma ReplacingIndexSnoc(t: Tables, defs: seq<DefinitionRecord>, i: nat)
    requires i < |defs| && ReplacingIndex(t, defs[..i]).1.None?
    ensures ReplacingIndex(t, defs[..i + 1]) == ReplacingStep(ReplacingIndex(t, defs[..i]).0, defs[i])
  {
    assert defs[..i + 1][..i] == defs[..i];
  }

  /** When no exception is raised, the list of each package holds only the entry of the last
      definition for it, and is left as it was when there is none. */
  lemma {:induction false} ReplacingLastWins(t: Tables, defs: seq<DefinitionRecord>, table: Table, package: string)
    requires ReplacingIndex(t, defs).1.None?
    ensures var es := EntriesFor(defs, table, package, PairStyle);
      Lookup(ReplacingIndex(t, defs).0.Get(table), package)
      == if es == [] then Lookup(t.Get(table), package) else [es[|es| - 1]]
  {
    if |defs| > 0 {
      var init := defs[..|defs| - 1];
      var d := defs[|defs| - 1];
      var prev := ReplacingIndex(t, init);
      ReplacingLastWins(t, init, table, package);
      match TableOf(d.kind)
      case None =>
      case Some(tb) =>
        var cleared := prev.0.Put(tb, d.package, []);
        var entry := EntryOf(d, tb, PairStyle).value;
        PutLookup(prev.0, tb, d.package, [], table, package);
        PutLookup(cleared, tb, d.package, [entry], table, package);
    }
  }

  /** Every list holds at most one entry. */
  predicate AtMostOneEach(t: Tables) {
    forall table: Table, package :: package in t.Get(table) ==> |t.Get(table)[package]| <= 1
  }

  /** Indexing keeps every list at one entry at most, whether or not it raises. */
  lemma {:induction false} ReplacingKeepsAtMostOne(t: Tables, defs: seq<DefinitionRecord>)
    requires AtMostOneEach(t)
    ensures AtMostOneEach(ReplacingIndex(t, defs).0)
  {
    if |defs| > 0 {
      var prev := ReplacingIndex(t, defs[..|defs| - 1]);
      ReplacingKeepsAtMostOne(t, defs[..|defs| - 1]);
      var d := defs[|defs| - 1];
      if prev.1.None? && TableOf(d.kind).Some? {
        var tb := TableOf(d.kind).value;
        var cleared := prev.0.Put(tb, d.package, []);
        assert AtMostOneEach(cleared) by {
          forall table: Table, package | package in cleared.Get(table)
            ensures |cleared.Get(table)[package]| <= 1
          {
            if table != tb || package != d.package {
              assert cleared.Get(table)[package] == prev.0.Get(table)[package];
            }
          }
        }
        if EntryOf(d, tb, PairStyle).Ok? {
          var last := cleared.Put(tb, d.package, [EntryOf(d, tb, PairStyle).value]);
          forall table: Table, package | package in last.Get(table)
            ensures |last.Get(table)[package]| <= 1
          {
            if table != tb || package != d.package {
              assert last.Get(table)[package] == cleared.Get(table)[package];
            }
          }
        }
      }
    }
  }

  /** What `index_file` did. */
  datatype IndexOutcome =
    | NotNeeded                        // `needs_reindex` said no
    | NoMain                           // the file has no `main :: proc`
    | Indexed(error: Option<PyError>)  // the query ran; the loop raised `error`, if any

  class Completer {
    var lastFullReindexSecs: int
    var lastIndexedFile: string
    /** The class attributes, shared by every instance. */
    const tables: PackageTables

    constructor(tables: PackageTables)
      ensures this.tables == tables
      ensures lastFullReindexSecs == -FullReindexIntervalSecs && lastIndexedFile == ""
    {
      this.tables := tables;
      lastFullReindexSecs := -FullReindexIntervalSecs;
      lastIndexedFile := "";
    }

    /** `needs_reindex`: also records the file as the last one indexed. */
    method NeedsReindex(currentFile: string, now: int) returns (r: bool)
      modifies this
      ensures r == NeedsReindexOf(old(lastIndexedFile), lastFullReindexSecs, currentFile, now)
      ensures lastIndexedFile == currentFile && lastFullReindexSecs == old(lastFullReindexSecs)
    {
      if lastIndexedFile != currentFile {
        lastIndexedFile := currentFile;
        return true;
      }
      r := now - lastFullReindexSecs > FullReindexIntervalSecs;
    }

    /** `procs_for_package`, `types_for_package` and `vars_for_package`: the list of the
        package, emptied (created when absent). */
    method ForPackage(table: Table, package: string) returns (list: seq<Entry>)
      modifies tables
      ensures list == Lookup(tables.State().Get(table), package) == []
      ensures tables.State() == old(tables.State()).Put(table, package, [])
      ensures tables.packages == old(tables.packages)
    {
      tables.SetList(table, package, []);
      list := [];
    }

    /** `gen_completion_for_proc`. */
    method GenCompletionForProc(package: string, name: string, sig: Option<string>) returns (r: Outcome<Entry>)
      ensures r == ProcPairEntry(package, name, sig)
    {
      var parsed := ProcSignatureOf(name, sig);
      if parsed.Raise? {
        return Raise(parsed.error);
      }
      var result := BuildInsertText(name, parsed.value.params);
      r := Ok(Pair(Completion(parsed.value.trigger + "\t" + package, result)));
    }

    /** The loop over `definitions` of `index_file`. */
    method IndexDefinitions(defs: seq<DefinitionRecord>) returns (error: Option<PyError>)
      modifies tables
      ensures (tables.State(), error) == ReplacingIndex(old(tables.State()), defs)
      ensures tables.packages == old(tables.packages)
    {
      for i := 0 to |defs|
        invariant (tables.State(), None) == ReplacingIndex(old(tables.State()), defs[..i])
        invariant tables.packages == old(tables.packages)
      {
        var d := defs[i];
        ghost var prev := tables.State();
        ReplacingIndexSnoc(old(tables.State()), defs, i);
        var kind := TableOf(d.kind);
        if kind.None? {
          continue;
        }
        var table := kind.value;
        var list := ForPackage(table, d.package);
        var entry: Outcome<Entry>;
        if table == Procs {
          entry := GenCompletionForProc(d.package, d.name, d.typ);
        } else {
          entry := EntryOf(d, table, PairStyle);
        }
        assert entry == EntryOf(d, table, PairStyle);
        if entry.Raise? {
          error := Some(entry.error);
          ReplacingIndexStops(old(tables.State()), defs, i + 1);
          return;
        }
        tables.SetList(table, d.package, list + [entry.value]);
        assert list + [entry.value] == [entry.value];
      }
      assert defs[..|defs|] == defs;
      error := None;
    }

    /** `index_file`. */
    method IndexFile(currentFile: string, now: int, contents: string, query: QueryOutput, finishedAt: int)
      returns (outcome: IndexOutcome)
      modifies this, tables
      ensures lastIndexedFile == currentFile
      ensures !NeedsReindexOf(old(lastIndexedFile), old(lastFullReindexSecs), currentFile, now)
        ==> outcome == NotNeeded && unchanged(tables) && lastFullReindexSecs == old(lastFullReindexSecs)
      ensures NeedsReindexOf(old(lastIndexedFile), old(lastFullReindexSecs), currentFile, now) && !Contains(contents, "main :: proc")
        ==> outcome == NoMain && unchanged(tables) && lastFullReindexSecs == old(lastFullReindexSecs)
      ensures NeedsReindexOf(old(lastIndexedFile), old(lastFullReindexSecs), currentFile, now) && Contains(contents, "main :: proc")
        ==> var r := ReplacingIndex(old(tables.State()), query.definitions);
            && outcome == Indexed(r.1)
            && tables.State() == r.0
            && tables.packages == old(tables.packages) + IndexedPackageNames(query.packages)
            && lastFullReindexSecs == (if r.1.None? then finishedAt else old(lastFullReindexSecs))
    {
      var needed := NeedsReindex(currentFile, now);
      if !needed {
        return NotNeeded;
      }
      if !Contains(contents, "main :: proc") {
        return NoMain;
      }
      tables.AddPackages(query.packages);
      var error := IndexDefinitions(query.definitions);
      if error.Some? {
        return Indexed(error);
      }
      lastFullReindexSecs := finishedAt;
      outcome := Indexed(None);
    }
  }
}

/** `GlossaryProcessorEntry`: which readers load a file, which post-processing filters run on
    what they load, and whether the filters see one file's entries at a time or a whole
    folder's. */
module ProcessorEntry {
  import opened Results
  import opened Foreign
  import opened Entries
  import opened FileFilters
  import opened Reader
  import opened MergeFilter
  import opened DuplicateFilter

  /** `ContentProcessingRule`. */
  datatype ProcessingRule = Single | All

  /** The `ISortObjectsFilter` implementations: the L1/L2 file merge and the duplicate filter.
      Neither reads the parameters map the pipeline passes (always null). */
  datatype SortFilter = MergeFiles(config: MergeConfig) | DropDuplicates

  /** The readers are kept in the order the filter map yields its keys. */
  datatype Entry = Entry(readers: seq<(FileFilter, ReaderConfig)>, filters: seq<SortFilter>, rule: ProcessingRule)

  /** A freshly constructed entry: no readers, no filters, one file at a time. */
  function NewEntry(): (e: Entry)
    ensures e.readers == [] && e.filters == [] && e.rule == Single
  {
    Entry([], [], Single)
  }

  /** `ISortObjectsFilter.process` of either filter. */
  function ApplyFilter(env: Env, f: SortFilter, objs: seq<SortObject>): Result<seq<SortObject>> {
    match f
    case MergeFiles(cfg) => Merge(env, cfg, objs)
    case DropDuplicates => RemoveDuplicates(env, objs)
  }

  /** Runs the filters in list order, each on what the previous one left; the first failure
      stops the run. */
  function RunFilters(env: Env, filters: seq<SortFilter>, objs: seq<SortObject>): (r: Result<seq<SortObject>>)
    ensures filters == [] ==> r == Ok(objs)
    ensures filters != [] && ApplyFilter(env, filters[0], objs).Err? ==> r == Err(ApplyFilter(env, filters[0], objs).failure)
    decreases |filters|
  {
    if filters == [] then Ok(objs)
    else
      var next :- ApplyFilter(env, filters[0], objs);
      RunFilters(env, filters[1..], next)
  }

  /** `process`: the entry's filters, in order. */
  function Process(env: Env, e: Entry, objs: seq<SortObject>): Result<seq<SortObject>> {
    RunFilters(env, e.filters, objs)
  }

  /** What a filter list makes of an earlier outcome: a failure passes through unchanged. */
  function RunAfter(env: Env, filters: seq<SortFilter>, earlier: Result<seq<SortObject>>): Result<seq<SortObject>> {
    match earlier
    case Ok(objs) => RunFilters(env, filters, objs)
    case Err(f) => Err(f)
  }

  /** Running two filter lists one after the other is running their concatenation. */
  lemma {:induction false} RunFiltersAppend(env: Env, a: seq<SortFilter>, b: seq<SortFilter>, objs: seq<SortObject>)
    ensures RunFilters(env, a + b, objs) == RunAfter(env, b, RunFilters(env, a, objs))
    decreases |a|
  {
    if a == [] {
      assert a + b == b;
    } else {
      assert (a + b)[0] == a[0];
      assert (a + b)[1..] == a[1..] + b;
      var first := ApplyFilter(env, a[0], objs);
      if first.Ok? {
        RunFiltersAppend(env, a[1..], b, first.value);
      }
    }
  }

  /** A default entry hands the entries back untouched. */
  lemma DefaultEntryKeepsEntries(env: Env, objs: seq<SortObject>)
    ensures Process(env, NewEntry(), objs) == Ok(objs)
  {
  }

  /** Registering the duplicate filter twice removes nothing beyond registering it once. */
  lemma DuplicateFilterTwiceIsOnce(env: Env, objs: seq<SortObject>)
    ensures RunFilters(env, [DropDuplicates, DropDuplicates], objs) == RunFilters(env, [DropDuplicates], objs)
  {
    var once := RemoveDuplicates(env, objs);
    assert [DropDuplicates, DropDuplicates][1..] == [DropDuplicates];
    assert [DropDuplicates][1..] == [];
    if once.Ok? {
      RemoveDuplicatesIdempotent(env, objs);
      assert RunFilters(env, [DropDuplicates], once.value) == RemoveDuplicates(env, once.value);
    }
  }
}

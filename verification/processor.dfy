/** `GlossaryProcessor`: the folder walk that loads entries through the processor entries,
    the final filters, phrase marking, stop-word stripping, the word/phrase split and the
    sort. The file system is an explicit tree and each file's parsed document a parameter. */
module Processor {
  import opened Results
  import opened Text
  import opened Foreign
  import opened Entries
  import opened Collation
  import opened FileFilters
  import opened Reader
  import opened ProcessorEntry
  import opened Comparator
  import opened Sorting

  /** A listed file's two names: `path` is the input root's path joined with the names below
      it (`File.getPath`, relative when the root was given relative), `absolutePath` the same
      file resolved against the working directory (`File.getAbsolutePath`). Filters and the
      origin tag see the absolute path; the extraction strategies see `path`. */
  datatype FilePath = FilePath(path: string, absolutePath: string)

  /** A directory listing: a file, or a folder with its listing in `listFiles` order. */
  datatype FsNode = File(file: FilePath) | Folder(path: string, children: seq<FsNode>)

  /** What the walk learns about files besides the tree: the parsed document of a file by
      its absolute path (`None` when it does not parse) and the platform's path separator. */
  datatype Files = Files(document: string -> Option<XPathView>, separator: string)

  /** A failure passes through; two loads are concatenated. */
  function Chain(first: Result<seq<SortObject>>, second: Result<seq<SortObject>>): (r: Result<seq<SortObject>>)
    ensures r.Ok? <==> first.Ok? && second.Ok?
  {
    match first
    case Err(f) => Err(f)
    case Ok(x) => match second
      case Err(f) => Err(f)
      case Ok(y) => Ok(x + y)
  }

  lemma ChainAssociative(x: Result<seq<SortObject>>, y: Result<seq<SortObject>>, z: Result<seq<SortObject>>)
    ensures Chain(x, Chain(y, z)) == Chain(Chain(x, y), z)
  {
    if x.Ok? && y.Ok? && z.Ok? {
      assert x.value + (y.value + z.value) == (x.value + y.value) + z.value;
    }
  }

  //---------------------------------------------------------------------------------
  // loadSortObjects

  /** One reader of an entry applied to one file: what it reads if its filter accepts the
      file, nothing otherwise. */
  function ReadIfAccepted(env: Env, files: Files, reader: (FileFilter, ReaderConfig), file: FilePath): (r: Result<seq<SortObject>>)
    ensures Accept(env, reader.0, file.absolutePath, files.document(file.absolutePath)).Err? ==>
              r == Err(Accept(env, reader.0, file.absolutePath, files.document(file.absolutePath)).failure)
    ensures Accept(env, reader.0, file.absolutePath, files.document(file.absolutePath)) == Ok(false) ==> r == Ok([])
    ensures r.Ok? && r.value != [] ==> Accept(env, reader.0, file.absolutePath, files.document(file.absolutePath)) == Ok(true)
  {
    var accepted :- Accept(env, reader.0, file.absolutePath, files.document(file.absolutePath));
    if accepted then
      var read :- ReadSortObjects(env, reader.1, files.document(file.absolutePath), InputFile(file.path, file.absolutePath, files.separator));
      Ok(read.entries)
    else Ok([])
  }

  /** `loadSortObjects`: the entries of every accepting reader, in reader order. The first
      failure of a filter or a reader ends the load. */
  function LoadSortObjects(env: Env, files: Files, readers: seq<(FileFilter, ReaderConfig)>, file: FilePath)
    : (r: Result<seq<SortObject>>)
    ensures readers == [] ==> r == Ok([])
    ensures r.Ok? <==> forall i :: 0 <= i < |readers| ==> ReadIfAccepted(env, files, readers[i], file).Ok?
    decreases |readers|
  {
    if readers == [] then Ok([])
    else
      var first := ReadIfAccepted(env, files, readers[0], file);
      var rest := LoadSortObjects(env, files, readers[1..], file);
      assert forall i :: 1 <= i < |readers| ==> readers[i] == readers[1..][i - 1];
      Chain(first, rest)
  }

  /** Loading with two reader lists is loading with each, the first one's entries first. */
  lemma {:induction false} LoadSortObjectsAppend(env: Env, files: Files, a: seq<(FileFilter, ReaderConfig)>,
                                                 b: seq<(FileFilter, ReaderConfig)>, file: FilePath)
    ensures LoadSortObjects(env, files, a + b, file)
            == Chain(LoadSortObjects(env, files, a, file), LoadSortObjects(env, files, b, file))
    decreases |a|
  {
    if a == [] {
      assert a + b == b;
      var loaded := LoadSortObjects(env, files, b, file);
      if loaded.Ok? {
        assert [] + loaded.value == loaded.value;
      }
    } else {
      assert (a + b)[0] == a[0];
      assert (a + b)[1..] == a[1..] + b;
      LoadSortObjectsAppend(env, files, a[1..], b, file);
      ChainAssociative(ReadIfAccepted(env, files, a[0], file), LoadSortObjects(env, files, a[1..], file),
                       LoadSortObjects(env, files, b, file));
    }
  }

  /** A file no filter accepts loads nothing. */
  lemma {:induction false} UnacceptedFileLoadsNothing(env: Env, files: Files, readers: seq<(FileFilter, ReaderConfig)>, file: FilePath)
    requires forall i :: 0 <= i < |readers| ==> Accept(env, readers[i].0, file.absolutePath, files.document(file.absolutePath)) == Ok(false)
    ensures LoadSortObjects(env, files, readers, file) == Ok([])
    decreases |readers|
  {
    if readers != [] {
      assert Accept(env, readers[0].0, file.absolutePath, files.document(file.absolutePath)) == Ok(false);
      UnacceptedFileLoadsNothing(env, files, readers[1..], file);
      assert ReadIfAccepted(env, files, readers[0], file) == Ok([]);
      var none: seq<SortObject> := [];
      assert none + none == none;
    }
  }

  //---------------------------------------------------------------------------------
  // processInput

  /** What the walk of one folder has so far: the shared result list, and for each processor
      entry the entries collected for it in this folder (used by ALL entries only). */
  datatype FolderState = FolderState(result: seq<SortObject>, pending: seq<seq<SortObject>>)

  /** The entry carries the path of one of the listed files under the origin key. */
  predicate FromFileIn(o: SortObject, children: seq<FsNode>) {
    OriginFileKey in o.userData
    && exists j :: 0 <= j < |children| && children[j].File? && children[j].file.absolutePath == o.userData[OriginFileKey]
  }

  /** Every collected entry comes tagged from one of the listed files. */
  predicate PendingFromFiles(pending: seq<seq<SortObject>>, children: seq<FsNode>) {
    forall k, m :: 0 <= k < |pending| && 0 <= m < |pending[k]| ==> FromFileIn(pending[k][m], children)
  }

  /** The per-file loop from entry `i` on: a SINGLE entry filters what it loaded and appends
      it to the result; an ALL entry tags it with the file's path and keeps it for later. */
  function HandleFile(env: Env, files: Files, entries: seq<Entry>, file: FilePath, st: FolderState, i: nat)
    : (r: Result<FolderState>)
    requires i <= |entries| && |st.pending| == |entries|
    ensures r.Ok? ==> |r.value.pending| == |entries| && st.result <= r.value.result
    ensures r.Ok? ==> forall k :: 0 <= k < |entries| ==>
                        && st.pending[k] <= r.value.pending[k]
                        && (entries[k].rule.Single? || k < i ==> r.value.pending[k] == st.pending[k])
                        && forall m :: |st.pending[k]| <= m < |r.value.pending[k]| ==>
                             OriginFileKey in r.value.pending[k][m].userData
                             && r.value.pending[k][m].userData[OriginFileKey] == file.absolutePath
    decreases |entries| - i
  {
    if i == |entries| then Ok(st)
    else
      var loaded :- LoadSortObjects(env, files, entries[i].readers, file);
      if entries[i].rule.All? then
        var tagged := TagAll(loaded, file.absolutePath);
        HandleFile(env, files, entries, file, FolderState(st.result, st.pending[i := st.pending[i] + tagged]), i + 1)
      else
        var processed :- Process(env, entries[i], loaded);
        HandleFile(env, files, entries, file, FolderState(st.result + processed, st.pending), i + 1)
  }

  /** The loop over a folder's listing from position `j` on; folders are skipped here and
      walked after all files. */
  function HandleFiles(env: Env, files: Files, entries: seq<Entry>, children: seq<FsNode>, st: FolderState, j: nat)
    : (r: Result<FolderState>)
    requires j <= |children| && |st.pending| == |entries|
    ensures r.Ok? ==> |r.value.pending| == |entries| && st.result <= r.value.result
    ensures r.Ok? ==> forall k :: 0 <= k < |entries| && entries[k].rule.Single? ==> r.value.pending[k] == st.pending[k]
    decreases |children| - j
  {
    if j == |children| then Ok(st)
    else if children[j].Folder? then HandleFiles(env, files, entries, children, st, j + 1)
    else
      var next :- HandleFile(env, files, entries, children[j].file, st, 0);
      HandleFiles(env, files, entries, children, next, j + 1)
  }

  /** What an entry contributes when a folder's collections are flushed: an ALL entry's
      collection as its filters leave it, nothing for a SINGLE entry. */
  function FlushedBy(env: Env, e: Entry, collected: seq<SortObject>): seq<SortObject> {
    if e.rule.All? && Process(env, e, collected).Ok? then Process(env, e, collected).value else []
  }

  /** The contributions of the entries from `i` on, in entry order. */
  function Flushed(env: Env, entries: seq<Entry>, pending: seq<seq<SortObject>>, i: nat): seq<SortObject>
    requires i <= |entries| == |pending|
    decreases |entries| - i
  {
    if i == |entries| then [] else FlushedBy(env, entries[i], pending[i]) + Flushed(env, entries, pending, i + 1)
  }

  /** The ALL entries, in entry order, each filtering what it collected in the folder. The
      flush fails exactly when one of their filter chains fails, with the first such failure;
      otherwise it is the contributions one after the other. */
  function FlushAll(env: Env, entries: seq<Entry>, pending: seq<seq<SortObject>>, i: nat): (r: Result<seq<SortObject>>)
    requires i <= |entries| == |pending|
    ensures (forall k :: i <= k < |entries| ==> entries[k].rule.Single?) ==> r == Ok([])
    ensures r.Ok? ==> r.value == Flushed(env, entries, pending, i)
    decreases |entries| - i
  {
    if i == |entries| then Ok([])
    else
      var rest := FlushAll(env, entries, pending, i + 1);
      if entries[i].rule.All? then Chain(Process(env, entries[i], pending[i]), rest) else rest
  }

  /** One step of the flush: entry `i`'s contribution, then the flush of the later entries. */
  lemma FlushAllStep(env: Env, entries: seq<Entry>, pending: seq<seq<SortObject>>, i: nat)
    requires i < |entries| == |pending|
    ensures entries[i].rule.Single? ==> FlushAll(env, entries, pending, i) == FlushAll(env, entries, pending, i + 1)
    ensures entries[i].rule.All? ==>
              FlushAll(env, entries, pending, i) == Chain(Process(env, entries[i], pending[i]), FlushAll(env, entries, pending, i + 1))
  {
  }

  /** The flush succeeds exactly when every ALL entry's filter chain does. */
  lemma {:induction false} FlushAllSucceedsIff(env: Env, entries: seq<Entry>, pending: seq<seq<SortObject>>, i: nat)
    requires i <= |entries| == |pending|
    ensures FlushAll(env, entries, pending, i).Ok?
            <==> forall k :: i <= k < |entries| && entries[k].rule.All? ==> Process(env, entries[k], pending[k]).Ok?
    decreases |entries| - i
  {
    if i < |entries| {
      FlushAllStep(env, entries, pending, i);
      FlushAllSucceedsIff(env, entries, pending, i + 1);
      var here := Process(env, entries[i], pending[i]);
      var rest := FlushAll(env, entries, pending, i + 1);
      if FlushAll(env, entries, pending, i).Ok? {
        assert rest.Ok? && (entries[i].rule.All? ==> here.Ok?);
        forall k | i <= k < |entries| && entries[k].rule.All? ensures Process(env, entries[k], pending[k]).Ok? {
          if k == i {
            assert Process(env, entries[k], pending[k]) == here;
          } else {
            assert i + 1 <= k;
          }
        }
      } else if entries[i].rule.All? && here.Err? {
        assert !Process(env, entries[i], pending[i]).Ok?;
      } else {
        assert rest.Err?;
        var k :| i + 1 <= k < |entries| && entries[k].rule.All? && !Process(env, entries[k], pending[k]).Ok?;
        assert i <= k;
      }
    } else {
      assert FlushAll(env, entries, pending, i) == Ok([]);
    }
  }

  /** A failed flush is the failure of some ALL entry's filter chain, every earlier ALL
      entry having filtered without failure. */
  lemma {:induction false} FlushAllFailure(env: Env, entries: seq<Entry>, pending: seq<seq<SortObject>>, i: nat)
    returns (k: nat)
    requires i <= |entries| == |pending|
    requires FlushAll(env, entries, pending, i).Err?
    ensures i <= k < |entries| && entries[k].rule.All?
    ensures Process(env, entries[k], pending[k]) == Err(FlushAll(env, entries, pending, i).failure)
    ensures forall m :: i <= m < k && entries[m].rule.All? ==> Process(env, entries[m], pending[m]).Ok?
    decreases |entries| - i
  {
    if i == |entries| {
      assert false;
    }
    FlushAllStep(env, entries, pending, i);
    var here := Process(env, entries[i], pending[i]);
    if entries[i].rule.All? && here.Err? {
      k := i;
      assert FlushAll(env, entries, pending, i) == Err(here.failure);
    } else {
      var rest := FlushAll(env, entries, pending, i + 1);
      assert rest.Err? && rest.failure == FlushAll(env, entries, pending, i).failure;
      k := FlushAllFailure(env, entries, pending, i + 1);
      forall m | i <= m < k && entries[m].rule.All? ensures Process(env, entries[m], pending[m]).Ok? {
        if m == i {
          assert Process(env, entries[m], pending[m]) == here;
        } else {
          assert i + 1 <= m;
        }
      }
    }
  }

  predicate HasFile(children: seq<FsNode>) {
    exists j :: 0 <= j < |children| && children[j].File?
  }

  /** No entry collected yet, one empty list per processor entry. */
  function NoPending(entries: seq<Entry>): (pending: seq<seq<SortObject>>)
    ensures |pending| == |entries| && forall k :: 0 <= k < |pending| ==> pending[k] == []
  {
    seq(|entries|, _ => [])
  }

  /** `processInput`: the files of the listing, then what the ALL entries collected in it
      (only if it holds a file), then each subfolder in listing order. */
  function ProcessInput(env: Env, files: Files, entries: seq<Entry>, children: seq<FsNode>, result: seq<SortObject>)
    : (r: Result<seq<SortObject>>)
    ensures r.Ok? ==> result <= r.value
    decreases children, 1
  {
    var st :- HandleFiles(env, files, entries, children, FolderState(result, NoPending(entries)), 0);
    var flushed :- if HasFile(children) then FlushAll(env, entries, st.pending, 0) else Ok([]);
    ProcessFolders(env, files, entries, children, 0, st.result + flushed)
  }

  /** The subfolders of the listing from position `j` on. */
  function ProcessFolders(env: Env, files: Files, entries: seq<Entry>, children: seq<FsNode>, j: nat, result: seq<SortObject>)
    : (r: Result<seq<SortObject>>)
    requires j <= |children|
    ensures r.Ok? ==> result <= r.value
    decreases children, 0, |children| - j
  {
    if j == |children| then Ok(result)
    else if children[j].Folder? then
      var walked :- ProcessInput(env, files, entries, children[j].children, result);
      ProcessFolders(env, files, entries, children, j + 1, walked)
    else ProcessFolders(env, files, entries, children, j + 1, result)
  }

  /** The walk of `sub` after an earlier outcome; a failure passes through. */
  function ThenWalk(env: Env, files: Files, entries: seq<Entry>, sub: seq<FsNode>, earlier: Result<seq<SortObject>>)
    : Result<seq<SortObject>>
  {
    match earlier
    case Ok(result) => ProcessInput(env, files, entries, sub, result)
    case Err(f) => Err(f)
  }

  /** Everything the ALL entries collect in a folder is tagged with the path of one of the
      folder's own files, which the file merge filter relies on. */
  lemma {:induction false} CollectedEntriesAreTagged(env: Env, files: Files, entries: seq<Entry>, children: seq<FsNode>,
                                                     st: FolderState, j: nat)
    requires j <= |children| && |st.pending| == |entries|
    requires PendingFromFiles(st.pending, children)
    requires HandleFiles(env, files, entries, children, st, j).Ok?
    ensures PendingFromFiles(HandleFiles(env, files, entries, children, st, j).value.pending, children)
    decreases |children| - j
  {
    if j < |children| {
      if children[j].Folder? {
        CollectedEntriesAreTagged(env, files, entries, children, st, j + 1);
      } else {
        var next := HandleFile(env, files, entries, children[j].file, st, 0).value;
        forall k, m | 0 <= k < |next.pending| && 0 <= m < |next.pending[k]|
          ensures FromFileIn(next.pending[k][m], children)
        {
          if m < |st.pending[k]| {
            assert next.pending[k][m] == st.pending[k][m];
          }
        }
        CollectedEntriesAreTagged(env, files, entries, children, next, j + 1);
      }
    }
  }

  lemma {:induction false} HandleFilesIgnoresFolder(env: Env, files: Files, entries: seq<Entry>, children: seq<FsNode>,
                                                    folder: FsNode, st: FolderState, j: nat)
    requires folder.Folder? && j <= |children| && |st.pending| == |entries|
    ensures HandleFiles(env, files, entries, children + [folder], st, j) == HandleFiles(env, files, entries, children, st, j)
    decreases |children| - j
  {
    var all := children + [folder];
    if j == |children| {
      assert all[j] == folder;
    } else {
      assert all[j] == children[j];
      if children[j].Folder? {
        HandleFilesIgnoresFolder(env, files, entries, children, folder, st, j + 1);
      } else {
        var next := HandleFile(env, files, entries, children[j].file, st, 0);
        if next.Ok? {
          HandleFilesIgnoresFolder(env, files, entries, children, folder, next.value, j + 1);
        }
      }
    }
  }

  lemma {:induction false} ProcessFoldersAppend(env: Env, files: Files, entries: seq<Entry>, children: seq<FsNode>,
                                                folder: FsNode, j: nat, result: seq<SortObject>)
    requires folder.Folder? && j <= |children|
    ensures ProcessFolders(env, files, entries, children + [folder], j, result)
            == ThenWalk(env, files, entries, folder.children, ProcessFolders(env, files, entries, children, j, result))
    decreases |children| - j
  {
    var all := children + [folder];
    if j == |children| {
      assert all[j] == folder;
      var walked := ProcessInput(env, files, entries, folder.children, result);
      if walked.Ok? {
        assert ProcessFolders(env, files, entries, all, j + 1, walked.value) == Ok(walked.value);
      }
    } else {
      assert all[j] == children[j];
      if children[j].Folder? {
        var walked := ProcessInput(env, files, entries, children[j].children, result);
        if walked.Ok? {
          ProcessFoldersAppend(env, files, entries, children, folder, j + 1, walked.value);
        }
      } else {
        ProcessFoldersAppend(env, files, entries, children, folder, j + 1, result);
      }
    }
  }

  /** A subfolder listed last is walked after everything else the listing yields: its
      files' entries come after the parent's files, the parent's ALL entries and the
      earlier subfolders. */
  lemma LastSubfolderWalkedLast(env: Env, files: Files, entries: seq<Entry>, children: seq<FsNode>,
                                path: string, sub: seq<FsNode>, result: seq<SortObject>)
    ensures ProcessInput(env, files, entries, children + [Folder(path, sub)], result)
            == ThenWalk(env, files, entries, sub, ProcessInput(env, files, entries, children, result))
  {
    var folder := Folder(path, sub);
    var all := children + [folder];
    var start := FolderState(result, NoPending(entries));
    HandleFilesIgnoresFolder(env, files, entries, children, folder, start, 0);
    assert HasFile(all) == HasFile(children) by {
      if HasFile(all) {
        var j :| 0 <= j < |all| && all[j].File?;
        assert j < |children| && children[j] == all[j];
      }
      if HasFile(children) {
        var j :| 0 <= j < |children| && children[j].File?;
        assert all[j] == children[j];
      }
    }
    var st := HandleFiles(env, files, entries, children, start, 0);
    if st.Ok? {
      var flushed := if HasFile(children) then FlushAll(env, entries, st.value.pending, 0) else Ok([]);
      if flushed.Ok? {
        ProcessFoldersAppend(env, files, entries, children, folder, 0, st.value.result + flushed.value);
      }
    }
  }

  /** The files of a listing, in listing order. */
  function FilesOf(children: seq<FsNode>): (r: seq<FsNode>)
    ensures forall j :: 0 <= j < |r| ==> r[j].File?
  {
    if children == [] then []
    else (if children[0].File? then [children[0]] else []) + FilesOf(children[1..])
  }

  /** The subfolders of a listing, in listing order. */
  function FoldersOf(children: seq<FsNode>): (r: seq<FsNode>)
    ensures forall j :: 0 <= j < |r| ==> r[j].Folder?
  {
    if children == [] then []
    else (if children[0].Folder? then [children[0]] else []) + FoldersOf(children[1..])
  }

  /** One step of the file loop: a folder is skipped, a file is handled and the loop goes on. */
  lemma HandleFilesStep(env: Env, files: Files, entries: seq<Entry>, children: seq<FsNode>, st: FolderState, j: nat)
    requires j < |children| && |st.pending| == |entries|
    ensures children[j].Folder? ==>
              HandleFiles(env, files, entries, children, st, j) == HandleFiles(env, files, entries, children, st, j + 1)
    ensures children[j].File? ==>
              var next := HandleFile(env, files, entries, children[j].file, st, 0);
              HandleFiles(env, files, entries, children, st, j)
              == if next.Ok? then HandleFiles(env, files, entries, children, next.value, j + 1) else Err(next.failure)
  {
  }

  lemma {:induction false} HandleFilesDrop(env: Env, files: Files, entries: seq<Entry>, children: seq<FsNode>,
                                           st: FolderState, j: nat)
    requires 1 <= j <= |children| && |st.pending| == |entries|
    ensures HandleFiles(env, files, entries, children, st, j) == HandleFiles(env, files, entries, children[1..], st, j - 1)
    decreases |children| - j
  {
    if j < |children| {
      var rest := children[1..];
      assert rest[j - 1] == children[j];
      HandleFilesStep(env, files, entries, children, st, j);
      HandleFilesStep(env, files, entries, rest, st, j - 1);
      if children[j].Folder? {
        HandleFilesDrop(env, files, entries, children, st, j + 1);
      } else {
        var next := HandleFile(env, files, entries, children[j].file, st, 0);
        if next.Ok? {
          HandleFilesDrop(env, files, entries, children, next.value, j + 1);
        }
      }
    }
  }

  /** The file loop sees only the files of the listing: subfolders anywhere in it make no
      difference. */
  lemma {:induction false} HandleFilesOnFiles(env: Env, files: Files, entries: seq<Entry>, children: seq<FsNode>,
                                              st: FolderState)
    requires |st.pending| == |entries|
    ensures HandleFiles(env, files, entries, children, st, 0) == HandleFiles(env, files, entries, FilesOf(children), st, 0)
    decreases |children|
  {
    if children != [] {
      var fs := FilesOf(children);
      if children[0].Folder? {
        HandleFilesDrop(env, files, entries, children, st, 1);
        assert fs == FilesOf(children[1..]);
        HandleFilesOnFiles(env, files, entries, children[1..], st);
      } else {
        assert fs == [children[0]] + FilesOf(children[1..]);
        assert fs[1..] == FilesOf(children[1..]);
        var next := HandleFile(env, files, entries, children[0].file, st, 0);
        if next.Ok? {
          HandleFilesDrop(env, files, entries, children, next.value, 1);
          HandleFilesDrop(env, files, entries, fs, next.value, 1);
          HandleFilesOnFiles(env, files, entries, children[1..], next.value);
        }
      }
    }
  }

  lemma {:induction false} ProcessFoldersDrop(env: Env, files: Files, entries: seq<Entry>, children: seq<FsNode>,
                                              j: nat, result: seq<SortObject>)
    requires 1 <= j <= |children|
    ensures ProcessFolders(env, files, entries, children, j, result)
            == ProcessFolders(env, files, entries, children[1..], j - 1, result)
    decreases |children| - j
  {
    if j < |children| {
      assert children[1..][j - 1] == children[j];
      if children[j].Folder? {
        var walked := ProcessInput(env, files, entries, children[j].children, result);
        if walked.Ok? {
          ProcessFoldersDrop(env, files, entries, children, j + 1, walked.value);
        }
      } else {
        ProcessFoldersDrop(env, files, entries, children, j + 1, result);
      }
    }
  }

  /** The subfolder loop sees only the subfolders of the listing: files anywhere in it make
      no difference. */
  lemma {:induction false} ProcessFoldersOnFolders(env: Env, files: Files, entries: seq<Entry>, children: seq<FsNode>,
                                                   result: seq<SortObject>)
    ensures ProcessFolders(env, files, entries, children, 0, result)
            == ProcessFolders(env, files, entries, FoldersOf(children), 0, result)
    decreases |children|
  {
    if children != [] {
      var fs := FoldersOf(children);
      if children[0].File? {
        ProcessFoldersDrop(env, files, entries, children, 1, result);
        assert fs == FoldersOf(children[1..]);
        ProcessFoldersOnFolders(env, files, entries, children[1..], result);
      } else {
        assert fs == [children[0]] + FoldersOf(children[1..]);
        assert fs[1..] == FoldersOf(children[1..]);
        var walked := ProcessInput(env, files, entries, children[0].children, result);
        if walked.Ok? {
          ProcessFoldersDrop(env, files, entries, children, 1, walked.value);
          ProcessFoldersDrop(env, files, entries, fs, 1, walked.value);
          ProcessFoldersOnFolders(env, files, entries, children[1..], walked.value);
        }
      }
    }
  }

  lemma {:induction false} HasFileIff(children: seq<FsNode>)
    ensures HasFile(children) <==> FilesOf(children) != []
    decreases |children|
  {
    if children != [] {
      HasFileIff(children[1..]);
      if HasFile(children[1..]) {
        var j :| 0 <= j < |children[1..]| && children[1..][j].File?;
        assert children[j + 1].File?;
      }
      if HasFile(children) && !children[0].File? {
        var j :| 0 <= j < |children| && children[j].File?;
        assert children[1..][j - 1].File?;
      }
    }
  }

  /** The file pass over `fileNodes` from a fresh state, then the flush of what the ALL
      entries collected when there is a file, then the walk of `folderNodes` in order. */
  function FilesThenFolders(env: Env, files: Files, entries: seq<Entry>, fileNodes: seq<FsNode>,
                            folderNodes: seq<FsNode>, result: seq<SortObject>): Result<seq<SortObject>>
  {
    var st :- HandleFiles(env, files, entries, fileNodes, FolderState(result, NoPending(entries)), 0);
    var flushed :- if fileNodes != [] then FlushAll(env, entries, st.pending, 0) else Ok([]);
    ProcessFolders(env, files, entries, folderNodes, 0, st.result + flushed)
  }

  /** Wherever the subfolders sit in a listing, the walk handles all its files first, in
      listing order, then flushes the ALL entries once, then walks the subfolders in
      listing order. */
  lemma FilesBeforeFolders(env: Env, files: Files, entries: seq<Entry>, children: seq<FsNode>, result: seq<SortObject>)
    ensures ProcessInput(env, files, entries, children, result)
            == FilesThenFolders(env, files, entries, FilesOf(children), FoldersOf(children), result)
  {
    var start := FolderState(result, NoPending(entries));
    HandleFilesOnFiles(env, files, entries, children, start);
    HasFileIff(children);
    var st := HandleFiles(env, files, entries, children, start, 0);
    if st.Ok? {
      var flushed := if HasFile(children) then FlushAll(env, entries, st.value.pending, 0) else Ok([]);
      if flushed.Ok? {
        ProcessFoldersOnFolders(env, files, entries, children, st.value.result + flushed.value);
      }
    }
  }

  /** A file listed after a subfolder is still handled before it: the subfolder is walked
      after the file's entries and the folder's flush. */
  lemma FileBeforeEarlierFolder(env: Env, files: Files, entries: seq<Entry>, path: string, sub: seq<FsNode>,
                                file: FilePath, result: seq<SortObject>)
    ensures ProcessInput(env, files, entries, [Folder(path, sub), File(file)], result)
            == ThenWalk(env, files, entries, sub, ProcessInput(env, files, entries, [File(file)], result))
  {
    var listing := [Folder(path, sub), File(file)];
    FilesBeforeFolders(env, files, entries, listing, result);
    FilesBeforeFolders(env, files, entries, [File(file)], result);
    assert FilesOf(listing) == [File(file)] by {
      assert listing[1..] == [File(file)];
      assert FilesOf([File(file)]) == [File(file)] + FilesOf([]);
    }
    assert FoldersOf(listing) == [Folder(path, sub)] by {
      assert listing[1..] == [File(file)];
      assert FoldersOf([File(file)]) == FoldersOf([]);
    }
    assert FoldersOf([File(file)]) == [] by {
      assert FoldersOf([File(file)]) == FoldersOf([File(file)][1..]);
    }
    assert FilesOf([File(file)]) == [File(file)] by {
      assert [File(file)][1..] == [];
    }
    var st := HandleFiles(env, files, entries, [File(file)], FolderState(result, NoPending(entries)), 0);
    if st.Ok? {
      var flushed := FlushAll(env, entries, st.value.pending, 0);
      if flushed.Ok? {
        var x := st.value.result + flushed.value;
        var walked := ProcessInput(env, files, entries, sub, x);
        if walked.Ok? {
          assert ProcessFolders(env, files, entries, [Folder(path, sub)], 1, walked.value) == Ok(walked.value);
        }
      }
    }
  }

  //---------------------------------------------------------------------------------
  // markPhrases

  /** Some marker occurs in the entry's "L1" include field. */
  predicate HasMarker(markers: seq<string>, o: SortObject) {
    IncludedField(o, L1FieldName).Some?
    && exists k :: 0 <= k < |markers| && Contains(IncludedField(o, L1FieldName).value, markers[k])
  }

  /** `isPhrase`: the markers are tried in order until one is contained in the text. A
      missing text is dereferenced by the first `contains`, so it fails unless there are no
      markers at all. */
  function IsPhrase(markers: seq<string>, text: Option<string>): (r: Result<bool>)
    ensures r.Ok? <==> markers == [] || text.Some?
    ensures r.Err? ==> r.failure == MissingField(L1FieldName)
    ensures r.Ok? && text.Some? ==> (r.value <==> exists k :: 0 <= k < |markers| && Contains(text.value, markers[k]))
    ensures text.None? && markers == [] ==> r == Ok(false)
    decreases |markers|
  {
    if markers == [] then Ok(false)
    else if text.None? then Err(MissingField(L1FieldName))
    else if Contains(text.value, markers[0]) then Ok(true)
    else
      var rest := IsPhrase(markers[1..], text);
      assert forall k :: 1 <= k < |markers| ==> markers[k] == markers[1..][k - 1];
      rest
  }

  /** `markPhrases`: each entry's phrase flag is set from its "L1" include field; nothing
      else changes. */
  function MarkPhrases(markers: seq<string>, objs: seq<SortObject>): (r: Result<seq<SortObject>>)
    ensures r.Ok? <==> markers == [] || forall i :: 0 <= i < |objs| ==> IncludedField(objs[i], L1FieldName).Some?
    ensures r.Err? ==> r.failure == MissingField(L1FieldName)
    ensures r.Ok? ==> |r.value| == |objs|
    ensures r.Ok? ==> forall i :: 0 <= i < |objs| ==>
                        && r.value[i].(isPhrase := objs[i].isPhrase) == objs[i]
                        && (r.value[i].isPhrase <==> HasMarker(markers, objs[i]))
    decreases |objs|
  {
    if objs == [] then Ok([])
    else
      var phrase :- IsPhrase(markers, IncludedField(objs[0], L1FieldName));
      var rest :- MarkPhrases(markers, objs[1..]);
      assert forall i :: 1 <= i < |objs| ==> objs[i] == objs[1..][i - 1];
      Ok([objs[0].(isPhrase := phrase)] + rest)
  }

  /** Marking depends on nothing it changes, so marking twice is marking once. */
  lemma MarkPhrasesIdempotent(markers: seq<string>, objs: seq<SortObject>)
    requires MarkPhrases(markers, objs).Ok?
    ensures MarkPhrases(markers, MarkPhrases(markers, objs).value) == MarkPhrases(markers, objs)
  {
    var once := MarkPhrases(markers, objs).value;
    forall i | 0 <= i < |once| ensures IncludedField(once[i], L1FieldName) == IncludedField(objs[i], L1FieldName) {
      assert once[i].fieldsToInclude == objs[i].fieldsToInclude;
    }
    var twice := MarkPhrases(markers, once).value;
    forall i | 0 <= i < |once| ensures twice[i] == once[i] {
      assert HasMarker(markers, once[i]) == HasMarker(markers, objs[i]);
    }
  }

  //---------------------------------------------------------------------------------
  // Stop words

  /** `StopWordProcessingType`: NONE, WORDS, PHRASES, ALL. */
  datatype StopWordMode = NoStripping | WordsOnly | PhrasesOnly | Everything

  /** `replaceAll(word, "")` for each stop word, in list order. */
  function StripWords(env: Env, text: string, words: seq<string>): string
    decreases |words|
  {
    if words == [] then text else StripWords(env, env.removeRegex(text, words[0]), words[1..])
  }

  /** The lower-cased field with the profile's stop words removed, before the blank check:
      the default locale's casing unless the profile has stop words and a Java locale. */
  function StrippedText(env: Env, profiles: Profiles, field: string, code: Option<string>): string {
    match ProfileOf(profiles, code)
    case Some(cd) =>
      if ParseStopWords(cd) == [] then env.lowerDefault(field)
      else
        var lowered := if HasJavaLocale(cd) then env.lowerIn(field, cd.javaLocaleCode) else env.lowerDefault(field);
        StripWords(env, lowered, ParseStopWords(cd))
    case None => env.lowerDefault(field)
  }

  /** `removeStopWords`: the stripped text, trimmed; if stripping left nothing visible, the
      original field (original case), trimmed. */
  function RemoveStopWords(env: Env, profiles: Profiles, field: string, code: Option<string>): (r: string)
    ensures Trim(r) == r
    ensures r == [] ==> AllTrimmable(field)
    ensures !AllTrimmable(StrippedText(env, profiles, field, code)) ==> r == Trim(StrippedText(env, profiles, field, code))
    ensures AllTrimmable(StrippedText(env, profiles, field, code)) ==> r == Trim(field)
  {
    var stripped := StrippedText(env, profiles, field, code);
    TrimEmptyIff(stripped);
    TrimEmptyIff(field);
    var kept := if Trim(stripped) == [] then field else stripped;
    TrimIdempotent(kept);
    Trim(kept)
  }

  /** Without a profile, or with a profile that has no stop words, only case and the blank
      ends change. */
  lemma NoStopWordsOnlyLowers(env: Env, profiles: Profiles, field: string, code: Option<string>)
    requires ProfileOf(profiles, code).None? || ParseStopWords(ProfileOf(profiles, code).value) == []
    ensures RemoveStopWords(env, profiles, field, code)
            == if AllTrimmable(env.lowerDefault(field)) then Trim(field) else Trim(env.lowerDefault(field))
  {
  }

  /** The WORDS mode leaves phrases alone and the PHRASES mode leaves words alone. */
  predicate Skipped(mode: StopWordMode, o: SortObject) {
    (mode.WordsOnly? && o.isPhrase) || (mode.PhrasesOnly? && !o.isPhrase)
  }

  function StripFields(env: Env, profiles: Profiles, fields: seq<string>, code: Option<string>): seq<string> {
    seq(|fields|, k requires 0 <= k < |fields| => RemoveStopWords(env, profiles, fields[k], code))
  }

  function StripEntry(env: Env, profiles: Profiles, mode: StopWordMode, o: SortObject): SortObject {
    if Skipped(mode, o) then o
    else o.(sortFieldsL1 := StripFields(env, profiles, o.sortFieldsL1, o.languageCodeL1),
            sortFieldsL2 := StripFields(env, profiles, o.sortFieldsL2, o.languageCodeL2))
  }

  /** `removeStopWordsFromSortKeys`: entries stay in place; only sort fields change, and
      only in the entries the mode does not skip. */
  function RemoveStopWordsFromSortKeys(env: Env, profiles: Profiles, mode: StopWordMode, objs: seq<SortObject>)
    : (r: seq<SortObject>)
    ensures |r| == |objs|
    ensures forall i :: 0 <= i < |objs| ==>
              r[i].(sortFieldsL1 := objs[i].sortFieldsL1, sortFieldsL2 := objs[i].sortFieldsL2) == objs[i]
    ensures forall i :: 0 <= i < |objs| && Skipped(mode, objs[i]) ==> r[i] == objs[i]
    ensures forall i :: 0 <= i < |objs| ==>
              |r[i].sortFieldsL1| == |objs[i].sortFieldsL1| && |r[i].sortFieldsL2| == |objs[i].sortFieldsL2|
  {
    seq(|objs|, i requires 0 <= i < |objs| => StripEntry(env, profiles, mode, objs[i]))
  }

  /** Each sort field of a stripped entry went through `removeStopWords` with the profile of
      its own axis's language; it is trimmed and blank only if it was blank before. */
  lemma StrippedFieldsUseTheirAxisProfile(env: Env, profiles: Profiles, mode: StopWordMode, objs: seq<SortObject>,
                                          i: nat, axis: Axis, k: nat)
    requires i < |objs| && !Skipped(mode, objs[i]) && k < |SortFields(objs[i], axis)|
    ensures var field := SortFields(RemoveStopWordsFromSortKeys(env, profiles, mode, objs)[i], axis)[k];
            && field == RemoveStopWords(env, profiles, SortFields(objs[i], axis)[k], LanguageCode(objs[i], axis))
            && Trim(field) == field
            && (field == [] ==> AllTrimmable(SortFields(objs[i], axis)[k]))
  {
  }

  //---------------------------------------------------------------------------------
  // splitDataToWordsAndPhrases

  /** The entries whose phrase flag is `flag`, in input order. */
  function WithFlag(objs: seq<SortObject>, flag: bool): (r: seq<SortObject>)
    ensures |r| <= |objs|
    ensures forall i :: 0 <= i < |r| ==> r[i].isPhrase == flag
    decreases |objs|
  {
    if objs == [] then []
    else (if objs[0].isPhrase == flag then [objs[0]] else []) + WithFlag(objs[1..], flag)
  }

  /** Filtering distributes over concatenation, so relative order is kept. */
  lemma {:induction false} WithFlagAppend(a: seq<SortObject>, b: seq<SortObject>, flag: bool)
    ensures WithFlag(a + b, flag) == WithFlag(a, flag) + WithFlag(b, flag)
    decreases |a|
  {
    if a == [] {
      assert a + b == b;
    } else {
      assert (a + b)[0] == a[0];
      assert (a + b)[1..] == a[1..] + b;
      WithFlagAppend(a[1..], b, flag);
    }
  }

  /** An entry stays in the filter for its own flag. */
  lemma {:induction false} WithFlagKeeps(objs: seq<SortObject>, o: SortObject)
    requires o in objs
    ensures o in WithFlag(objs, o.isPhrase)
    decreases |objs|
  {
    if objs[0] != o {
      WithFlagKeeps(objs[1..], o);
    }
  }

  /** The two filters split the entries between them. */
  lemma {:induction false} WithFlagPartition(objs: seq<SortObject>)
    ensures multiset(WithFlag(objs, false)) + multiset(WithFlag(objs, true)) == multiset(objs)
    decreases |objs|
  {
    if objs != [] {
      WithFlagPartition(objs[1..]);
      assert objs == [objs[0]] + objs[1..];
    }
  }

  /** `splitDataToWordsAndPhrases`: (words, phrases). */
  function SplitWordsAndPhrases(objs: seq<SortObject>): (r: (seq<SortObject>, seq<SortObject>))
    ensures multiset(r.0) + multiset(r.1) == multiset(objs)
    ensures |r.0| + |r.1| == |objs|
    ensures forall i :: 0 <= i < |r.0| ==> !r.0[i].isPhrase
    ensures forall i :: 0 <= i < |r.1| ==> r.1[i].isPhrase
  {
    WithFlagPartition(objs);
    assert |multiset(WithFlag(objs, false)) + multiset(WithFlag(objs, true))| == |multiset(objs)|;
    (WithFlag(objs, false), WithFlag(objs, true))
  }

  //---------------------------------------------------------------------------------
  // sort

  /** The glossary comparator as the sort calls it. */
  function EntryCompare(env: Env, profiles: Profiles, axis: Axis, dir: Direction): (SortObject, SortObject) -> Result<int> {
    (a, b) => Compare(env, profiles, axis, dir, a, b)
  }

  /** The comparator the sort uses, as a total function. */
  function EntryOrder(env: Env, profiles: Profiles, axis: Axis, dir: Direction): (SortObject, SortObject) -> int {
    (a, b) => CompareValue(env, profiles, axis, dir, a, b)
  }

  /** `sort`: `Collections.sort` by the glossary comparator. Since a comparison fails exactly
      when its first argument has no usable collator, and the first entry is never a first
      argument, the sort fails exactly when some entry after the first has none. */
  function SortEntries(env: Env, profiles: Profiles, axis: Axis, dir: Direction, objs: seq<SortObject>)
    : (r: Result<seq<SortObject>>)
    ensures |objs| < 2 ==> r == Ok(objs)
    ensures r.Ok? <==> forall i :: 1 <= i < |objs| ==> CollatorOf(env, profiles, axis, objs[i]).Ok?
    ensures r.Err? ==> exists i :: 1 <= i < |objs| && CollatorOf(env, profiles, axis, objs[i]) == Err(r.failure)
    ensures r.Ok? ==> multiset(r.value) == multiset(objs) && |r.value| == |objs|
  {
    var cmp := EntryCompare(env, profiles, axis, dir);
    var r := TimSort(objs, cmp);
    if r.Ok? then
      TimSortCompared(objs, cmp, o => CollatorOf(env, profiles, axis, o).Ok?);
      r
    else
      SortFailureNamesEntry(env, profiles, axis, dir, objs);
      r
  }

  /** A failed sort names an entry after the first that has no usable collator. */
  lemma SortFailureNamesEntry(env: Env, profiles: Profiles, axis: Axis, dir: Direction, objs: seq<SortObject>)
    requires TimSort(objs, EntryCompare(env, profiles, axis, dir)).Err?
    ensures exists i :: 1 <= i < |objs|
              && CollatorOf(env, profiles, axis, objs[i]) == Err(TimSort(objs, EntryCompare(env, profiles, axis, dir)).failure)
  {
    var cmp := EntryCompare(env, profiles, axis, dir);
    var i, j := TimSortFailure(objs, cmp);
    assert cmp(objs[i], objs[j]) == Compare(env, profiles, axis, dir, objs[i], objs[j]);
  }
  /** On entries of one language and one sort-field count with a working collator, the
      comparator never fails and answers its total form. */
  lemma EntryCompareAnswersOnUniform(env: Env, profiles: Profiles, axis: Axis, dir: Direction, code: string, n: nat)
    requires code in profiles && MakeCollator(env, profiles[code]).Ok?
    ensures AnswersOn(EntryCompare(env, profiles, axis, dir), EntryOrder(env, profiles, axis, dir), o => Uniform(axis, code, n, o))
  {
    forall a, b | Uniform(axis, code, n, a) && Uniform(axis, code, n, b)
      ensures EntryCompare(env, profiles, axis, dir)(a, b) == Ok(EntryOrder(env, profiles, axis, dir)(a, b))
    {
      assert CollatorOf(env, profiles, axis, a) == MakeCollator(env, profiles[code]);
    }
  }

  /** Entries of one language and one sort-field count, under a collator that is a total
      preorder, come out sorted: no entry is ordered after a later one. */
  lemma SortEntriesSorted(env: Env, profiles: Profiles, axis: Axis, dir: Direction, code: string, n: nat,
                          objs: seq<SortObject>)
    requires code in profiles && n > 0
    requires MakeCollator(env, profiles[code]).Ok?
    requires CollatorIsTotalPreorder(env, MakeCollator(env, profiles[code]).value)
    requires forall i :: 0 <= i < |objs| ==> Uniform(axis, code, n, objs[i])
    ensures SortEntries(env, profiles, axis, dir, objs).Ok?
    ensures SortedBy(SortEntries(env, profiles, axis, dir, objs).value, EntryOrder(env, profiles, axis, dir))
  {
    var ok := o => Uniform(axis, code, n, o);
    CompareIsPreorderOnUniform(env, profiles, axis, dir, code, n);
    EntryCompareAnswersOnUniform(env, profiles, axis, dir, code, n);
    assert AllOk(objs, ok);
    TimSortSorted(objs, EntryCompare(env, profiles, axis, dir), EntryOrder(env, profiles, axis, dir), ok);
  }

  /** Under a total-preorder collator the sort is stable: `order[k]` is the input position of
      the `k`-th sorted entry, each position occurs once, and entries the comparator holds
      equal come out in their input order. */
  lemma SortEntriesStable(env: Env, profiles: Profiles, axis: Axis, dir: Direction, code: string, n: nat,
                          objs: seq<SortObject>) returns (order: seq<nat>)
    requires code in profiles && n > 0
    requires MakeCollator(env, profiles[code]).Ok?
    requires CollatorIsTotalPreorder(env, MakeCollator(env, profiles[code]).value)
    requires forall i :: 0 <= i < |objs| ==> Uniform(axis, code, n, objs[i])
    ensures SortEntries(env, profiles, axis, dir, objs).Ok?
    ensures |order| == |objs| && Distinct(order)
    ensures forall k :: 0 <= k < |objs| ==>
              order[k] < |objs| && SortEntries(env, profiles, axis, dir, objs).value[k] == objs[order[k]]
    ensures forall p, q ::
              (0 <= p < |objs| && 0 <= q < |objs| && order[p] < order[q] &&
               EntryOrder(env, profiles, axis, dir)(objs[order[p]], objs[order[q]]) == 0) ==> p < q
  {
    var ok := o => Uniform(axis, code, n, o);
    CompareIsPreorderOnUniform(env, profiles, axis, dir, code, n);
    EntryCompareAnswersOnUniform(env, profiles, axis, dir, code, n);
    assert AllOk(objs, ok);
    order := TimSortStable(objs, EntryCompare(env, profiles, axis, dir), EntryOrder(env, profiles, axis, dir), ok);
  }

  /** Entries already in order come back as they are: the whole list is one ascending run. */
  lemma SortedEntriesUnchanged(env: Env, profiles: Profiles, axis: Axis, dir: Direction, code: string, n: nat,
                               objs: seq<SortObject>)
    requires code in profiles && n > 0
    requires MakeCollator(env, profiles[code]).Ok?
    requires CollatorIsTotalPreorder(env, MakeCollator(env, profiles[code]).value)
    requires forall i :: 0 <= i < |objs| ==> Uniform(axis, code, n, objs[i])
    requires AdjacentSorted(objs, EntryOrder(env, profiles, axis, dir))
    ensures SortEntries(env, profiles, axis, dir, objs) == Ok(objs)
  {
    var ok := o => Uniform(axis, code, n, o);
    CompareIsPreorderOnUniform(env, profiles, axis, dir, code, n);
    EntryCompareAnswersOnUniform(env, profiles, axis, dir, code, n);
    assert AllOk(objs, ok);
    SortedInputUnchanged(objs, EntryCompare(env, profiles, axis, dir), EntryOrder(env, profiles, axis, dir), ok);
  }

  //---------------------------------------------------------------------------------
  // collectUnsortedGlossaryData

  /** The processor's configuration; `profiles` stands for the collator helper's map. */
  datatype ProcessorConfig = ProcessorConfig(
    entries: seq<Entry>,
    finalFilters: seq<SortFilter>,
    phraseMarkers: seq<string>,
    profiles: Profiles,
    stopWordMode: StopWordMode)

  /** `after` is `before` with every field passed through `removeStopWords` for `code`. */
  predicate FieldsStripped(env: Env, profiles: Profiles, before: seq<string>, after: seq<string>, code: Option<string>) {
    |after| == |before| && forall k :: 0 <= k < |before| ==> after[k] == RemoveStopWords(env, profiles, before[k], code)
  }

  /** `collectUnsortedGlossaryData` over the root folder's listing: the walk, the final
      filters in order, phrase marking, then stop-word stripping unless the mode is NONE.
      The result has one entry per filtered entry, in the same place, differing from it only
      in the phrase flag and, where the mode strips, in both axes' sort fields. */
  function CollectUnsortedGlossaryData(env: Env, files: Files, cfg: ProcessorConfig, root: seq<FsNode>)
    : (r: Result<seq<SortObject>>)
    ensures ProcessInput(env, files, cfg.entries, root, []).Err? ==>
              r == Err(ProcessInput(env, files, cfg.entries, root, []).failure)
    ensures ProcessInput(env, files, cfg.entries, root, []).Ok? ==>
              var filtered := RunFilters(env, cfg.finalFilters, ProcessInput(env, files, cfg.entries, root, []).value);
              && (filtered.Err? ==> r == Err(filtered.failure))
              && (filtered.Ok? && MarkPhrases(cfg.phraseMarkers, filtered.value).Err? ==> r == Err(MissingField(L1FieldName)))
              && (r.Ok? ==> filtered.Ok? && |r.value| == |filtered.value|)
    ensures r.Ok? ==>
              var filtered := RunFilters(env, cfg.finalFilters, ProcessInput(env, files, cfg.entries, root, []).value).value;
              forall i :: 0 <= i < |r.value| ==>
                && r.value[i].(isPhrase := filtered[i].isPhrase, sortFieldsL1 := filtered[i].sortFieldsL1,
                               sortFieldsL2 := filtered[i].sortFieldsL2) == filtered[i]
                && (r.value[i].isPhrase <==> HasMarker(cfg.phraseMarkers, filtered[i]))
                && (cfg.stopWordMode.NoStripping? || Skipped(cfg.stopWordMode, r.value[i]) ==>
                      r.value[i].sortFieldsL1 == filtered[i].sortFieldsL1 && r.value[i].sortFieldsL2 == filtered[i].sortFieldsL2)
                && (!cfg.stopWordMode.NoStripping? && !Skipped(cfg.stopWordMode, r.value[i]) ==>
                      && FieldsStripped(env, cfg.profiles, filtered[i].sortFieldsL1, r.value[i].sortFieldsL1, filtered[i].languageCodeL1)
                      && FieldsStripped(env, cfg.profiles, filtered[i].sortFieldsL2, r.value[i].sortFieldsL2, filtered[i].languageCodeL2))
    ensures r.Ok? ==> forall i :: 0 <= i < |r.value| ==> (r.value[i].isPhrase <==> HasMarker(cfg.phraseMarkers, r.value[i]))
    ensures r.Ok? && !cfg.stopWordMode.NoStripping? ==>
              forall i, k :: 0 <= i < |r.value| && !Skipped(cfg.stopWordMode, r.value[i]) && 0 <= k < |r.value[i].sortFieldsL1|
                ==> Trim(r.value[i].sortFieldsL1[k]) == r.value[i].sortFieldsL1[k]
    ensures r.Ok? && !cfg.stopWordMode.NoStripping? ==>
              forall i, k :: 0 <= i < |r.value| && !Skipped(cfg.stopWordMode, r.value[i]) && 0 <= k < |r.value[i].sortFieldsL2|
                ==> Trim(r.value[i].sortFieldsL2[k]) == r.value[i].sortFieldsL2[k]
  {
    var walked :- ProcessInput(env, files, cfg.entries, root, []);
    var filtered :- RunFilters(env, cfg.finalFilters, walked);
    var marked :- MarkPhrases(cfg.phraseMarkers, filtered);
    if cfg.stopWordMode.NoStripping? then Ok(marked)
    else Ok(RemoveStopWordsFromSortKeys(env, cfg.profiles, cfg.stopWordMode, marked))
  }

  lemma {:induction false} HandleFilesWithoutEntries(env: Env, files: Files, children: seq<FsNode>, st: FolderState, j: nat)
    requires j <= |children| && st.pending == []
    ensures HandleFiles(env, files, [], children, st, j) == Ok(st)
    decreases |children| - j
  {
    if j < |children| {
      HandleFilesWithoutEntries(env, files, children, st, j + 1);
    }
  }

  /** With no processor entries the walk adds nothing, however deep the tree. */
  lemma {:induction false} WalkWithoutEntries(env: Env, files: Files, children: seq<FsNode>, result: seq<SortObject>)
    ensures ProcessInput(env, files, [], children, result) == Ok(result)
    decreases children, 1
  {
    HandleFilesWithoutEntries(env, files, children, FolderState(result, NoPending([])), 0);
    assert result + [] == result;
    FoldersWithoutEntries(env, files, children, 0, result);
  }

  lemma {:induction false} FoldersWithoutEntries(env: Env, files: Files, children: seq<FsNode>, j: nat, result: seq<SortObject>)
    requires j <= |children|
    ensures ProcessFolders(env, files, [], children, j, result) == Ok(result)
    decreases children, 0, |children| - j
  {
    if j < |children| {
      if children[j].Folder? {
        WalkWithoutEntries(env, files, children[j].children, result);
      }
      FoldersWithoutEntries(env, files, children, j + 1, result);
    }
  }
}

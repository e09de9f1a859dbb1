/**
 * The metadata manager itself: the pending view state of the open document and the
 * operations that read, prune and rewrite the metadata folder.
 */
module MetadataStore {
  import opened Wrappers
  import opened Numbers
  import opened FilePaths
  import opened MetadataCodec
  import opened MetadataScan

  /**
   * The `metadata` subfolder of the configuration directory. `files` maps each file name
   * to its text. The file system refuses to remove the files in `undeletable`. When
   * `failsAfter` is `Some(k)`, listing the folder raises an error once it has produced
   * k entries (or all of them, if there are fewer).
   */
  class MetadataFolder {
    var files: Files
    const undeletable: set<string>
    const failsAfter: Option<nat>

    constructor (files: Files, undeletable: set<string>, failsAfter: Option<nat>)
      ensures this.files == files && this.undeletable == undeletable && this.failsAfter == failsAfter
    {
      this.files := files;
      this.undeletable := undeletable;
      this.failsAfter := failsAfter;
    }
  }

  class MetadataManager {
    /** The view state waiting to be written when the document changes, if any. */
    var metadata: Option<Entry>
    /** How many error messages were shown to the user. */
    var errorsShown: nat
    const folder: MetadataFolder

    /** A pending record is always valid and belongs to no file yet. */
    predicate Valid()
      reads this
    {
      metadata.Some? ==> metadata.value.valid && metadata.value.metadataFile == ""
    }

    constructor (folder: MetadataFolder)
      ensures Valid() && metadata == None && errorsShown == 0 && this.folder == folder
    {
      metadata := None;
      errorsShown := 0;
      this.folder := folder;
    }

    /** Remove `name` from the folder, unless it is not a `.metadata` file or cannot be removed. */
    method DeleteMetadataFile(name: string)
      modifies folder
      ensures folder.files == RemoveAll(old(folder.files), folder.undeletable, {name})
    {
      if Extension(name) != METADATA_EXT {
        return;
      }
      if name in folder.undeletable {
        return;
      }
      folder.files := folder.files - {name};
    }

    /** Read the record in `name`, deleting the file when the record is not valid. */
    method LoadMetadataFile(name: string) returns (entry: Entry)
      modifies folder
      ensures entry == ParseFile(name, ContentOf(old(folder.files), name))
      ensures folder.files == if entry.valid then old(folder.files)
                              else RemoveAll(old(folder.files), folder.undeletable, {name})
    {
      entry := ParseFile(name, ContentOf(folder.files, name));
      if !entry.valid {
        DeleteMetadataFile(name);
      }
    }

    /** One step of the listing loop of `LoadList`: read the next listed file `f`. */
    method VisitFile(f: string, ghost files0: Files, ghost p: Records, ghost visited: set<string>) returns (entry: Entry)
      requires RecordsOf(p, files0) && Named(p) && f in files0 && f !in visited
      requires folder.files == ScannedFiles(files0, p, folder.undeletable, visited)
      modifies folder
      ensures entry == p[f]
      ensures folder.files == ScannedFiles(files0, p, folder.undeletable, visited + {f})
    {
      ScannedStep(files0, p, folder.undeletable, visited, f);
      entry := LoadMetadataFile(f);
    }

    /**
     * One pass of the listing loop of `LoadList`: take one of the names still to read,
     * read its file and keep its record when it is valid.
     */
    method ReadNext(ghost files0: Files, ghost p: Records, todo: set<string>, ghost visited: set<string>, data: seq<Entry>)
      returns (todo': set<string>, ghost visited': set<string>, data': seq<Entry>)
      requires RecordsOf(p, files0) && Named(p) && todo != {}
      requires todo !! visited && todo + visited == files0.Keys
      requires folder.files == ScannedFiles(files0, p, folder.undeletable, visited)
      requires ReadSoFar(p, visited, data)
      modifies folder
      ensures todo' !! visited' && todo' + visited' == files0.Keys
      ensures |visited'| == |visited| + 1 && |todo'| < |todo|
      ensures folder.files == ScannedFiles(files0, p, folder.undeletable, visited')
      ensures ReadSoFar(p, visited', data')
    {
      var f :| f in todo;
      PartitionStep(todo, visited, files0.Keys, f);
      var entry := VisitFile(f, files0, p, visited);
      ReadStep(p, visited, data, f);
      data' := data;
      if entry.valid {
        data' := data + [entry];
      }
      todo', visited' := todo - {f}, visited + {f};
    }

    /**
     * The listing loop of `LoadList`, whose files hold the records `p`: read each file,
     * keeping the valid records and deleting the corrupt files. When the listing fails,
     * show one error and stop; `complete` says whether it got to the end.
     */
    method ReadFolder(ghost files0: Files, ghost p: Records) returns (data: seq<Entry>, complete: bool, ghost visited: set<string>)
      requires folder.files == files0 && RecordsOf(p, files0) && Named(p)
      modifies folder, this`errorsShown
      ensures complete <==> folder.failsAfter.None?
      ensures visited <= p.Keys
      ensures complete ==> visited == p.Keys
      ensures !complete ==> |visited| == if folder.failsAfter.value < |p.Keys| then folder.failsAfter.value else |p.Keys|
      ensures Distinct(data) && forall e :: e in data <==> e in ValidEntries(p, visited)
      ensures folder.files == ScannedFiles(files0, p, folder.undeletable, visited)
      ensures errorsShown == old(errorsShown) + if complete then 0 else 1
    {
      var todo := folder.files.Keys;
      var count := 0;
      visited := {};
      data := [];
      assert CorruptNames(p, visited) == {};
      while todo != {}
        invariant todo !! visited && todo + visited == files0.Keys
        invariant count == |visited|
        invariant folder.failsAfter.Some? ==> count <= folder.failsAfter.value
        invariant folder.files == ScannedFiles(files0, p, folder.undeletable, visited)
        invariant ReadSoFar(p, visited, data)
        invariant errorsShown == old(errorsShown)
        decreases |todo|
      {
        if folder.failsAfter.Some? && count == folder.failsAfter.value {
          PartitionSize(todo, visited, files0.Keys);
          errorsShown := errorsShown + 1;
          complete := false;
          return;
        }
        todo, visited, data := ReadNext(files0, p, todo, visited, data);
        count := count + 1;
      }
      complete := folder.failsAfter.None?;
      if !complete {
        errorsShown := errorsShown + 1;
      }
    }

    /**
     * Read every file of the folder, in the order the listing gives them, keeping the
     * valid records and deleting the corrupt files. When the listing fails, show one error
     * and return what was read so far, unsorted; otherwise sort newest first.
     */
    method LoadList() returns (data: seq<Entry>, ghost visited: set<string>)
      modifies folder, this`errorsShown
      ensures IsScan(Parsed(old(folder.files)), folder.failsAfter, visited, data)
      ensures folder.files == ScannedFiles(old(folder.files), Parsed(old(folder.files)), folder.undeletable, visited)
      ensures errorsShown == old(errorsShown) + if folder.failsAfter.Some? then 1 else 0
    {
      ghost var p := Parsed(folder.files);
      ParsedRecords(folder.files);
      var complete;
      data, complete, visited := ReadFolder(folder.files, p);
      if complete {
        var sorted := SortNewestFirst(data);
        DistinctPermutation(data, sorted);
        assert forall e :: e in sorted <==> e in multiset(data);
        data := sorted;
      }
    }

    /** Delete the files of the records of `list` beyond the twentieth. */
    method DeleteBeyondLimit(list: seq<Entry>)
      modifies folder
      ensures folder.files == RemoveAll(old(folder.files), folder.undeletable, FilesBetween(list, MAX_ENTRIES, |list|))
    {
      ghost var files0 := folder.files;
      var i := MAX_ENTRIES;
      assert FilesBetween(list, MAX_ENTRIES, i) == {};
      while i < |list|
        invariant MAX_ENTRIES <= i && (i <= |list| || i == MAX_ENTRIES)
        invariant folder.files == RemoveAll(files0, folder.undeletable, FilesBetween(list, MAX_ENTRIES, i))
        decreases |list| - i
      {
        ghost var before := FilesBetween(list, MAX_ENTRIES, i);
        DeleteMetadataFile(list[i].metadataFile);
        RemoveAllUnion(files0, folder.undeletable, before, {list[i].metadataFile});
        assert FilesBetween(list, MAX_ENTRIES, i + 1) == before + {list[i].metadataFile};
        i := i + 1;
      }
      assert FilesBetween(list, MAX_ENTRIES, i) == FilesBetween(list, MAX_ENTRIES, |list|);
    }

    /**
     * The stored view state of document `file`: the first record for it in the scan, or
     * the "no data" sentinel. Afterwards every record file beyond the twentieth of the
     * scan is deleted.
     */
    method GetForFile(file: string) returns (entry: Entry, ghost data: seq<Entry>, ghost visited: set<string>)
      modifies folder, this`errorsShown
      ensures IsScan(Parsed(old(folder.files)), folder.failsAfter, visited, data)
      ensures entry == FirstFor(data, file)
      ensures folder.files == EvictedFiles(old(folder.files), Parsed(old(folder.files)), folder.undeletable, visited, data)
      ensures errorsShown == old(errorsShown) + if folder.failsAfter.Some? then 1 else 0
    {
      var list;
      list, visited := LoadList();
      data := list;
      entry := FindFor(list, file);
      DeleteBeyondLimit(list);
    }

    /** Delete the files of the records of `list` for document `path`. */
    method DeleteRecordsFor(list: seq<Entry>, path: string)
      modifies folder
      ensures folder.files == RemoveAll(old(folder.files), folder.undeletable, FilesFor(list, path))
    {
      ghost var files0 := folder.files;
      assert FilesFor(list[..0], path) == {};
      for i := 0 to |list|
        invariant folder.files == RemoveAll(files0, folder.undeletable, FilesFor(list[..i], path))
      {
        ghost var before := FilesFor(list[..i], path);
        FilesForStep(list, i, path);
        if list[i].path == path {
          DeleteMetadataFile(list[i].metadataFile);
          RemoveAllUnion(files0, folder.undeletable, before, {list[i].metadataFile});
        }
      }
      assert list[..|list|] == list;
    }

    /**
     * Write record `m` to the folder at time `now`: delete every file of the scan that
     * holds a record for the same document, then write `<now>.metadata`.
     */
    method StoreMetadata(m: Entry, now: Int64) returns (ghost data: seq<Entry>, ghost visited: set<string>)
      modifies folder, this`errorsShown
      ensures IsScan(Parsed(old(folder.files)), folder.failsAfter, visited, data)
      ensures folder.files == FlushedFiles(old(folder.files), Parsed(old(folder.files)), folder.undeletable, visited, data, m, now)
      ensures errorsShown == old(errorsShown) + if folder.failsAfter.Some? then 1 else 0
    {
      var list;
      list, visited := LoadList();
      data := list;
      DeleteRecordsFor(list, m.path);
      folder.files := folder.files[MetadataFileName(now) := Encode(m)];
    }

    /**
     * Remember the view state of document `file` for the next flush: page, zoom and the
     * time `now`. An empty path is ignored.
     */
    method StoreViewState(file: string, page: Int32, zoom: int, now: Int64)
      requires Valid()
      modifies this`metadata
      ensures Valid()
      ensures file == "" ==> metadata == old(metadata)
      ensures file != "" ==> metadata == Some(Entry("", true, file, zoom, page, now))
    {
      if file == "" {
        return;
      }
      var m := if metadata.None? then DefaultEntry() else metadata.value;
      metadata := Some(m.(valid := true, path := file, zoom := zoom, page := page, time := now));
    }

    /**
     * The document was closed or another one opened: take the pending record, leaving
     * none, and write it to the folder at time `now`. With nothing pending, nothing happens.
     */
    method DocumentChanged(now: Int64) returns (ghost data: seq<Entry>, ghost visited: set<string>)
      requires Valid()
      modifies this`metadata, folder, this`errorsShown
      ensures Valid() && metadata == None
      ensures old(metadata) == None ==> folder.files == old(folder.files) && errorsShown == old(errorsShown)
      ensures old(metadata).Some? ==>
                && IsScan(Parsed(old(folder.files)), folder.failsAfter, visited, data)
                && folder.files == FlushedFiles(old(folder.files), Parsed(old(folder.files)), folder.undeletable,
                                                visited, data, old(metadata).value, now)
                && errorsShown == old(errorsShown) + if folder.failsAfter.Some? then 1 else 0
    {
      var m := metadata;
      metadata := None;
      if m == None {
        data, visited := [], {};
        return;
      }
      data, visited := StoreMetadata(m.value, now);
    }

    /** Destroying the manager flushes the pending record. */
    method Close(now: Int64) returns (ghost data: seq<Entry>, ghost visited: set<string>)
      requires Valid()
      modifies this`metadata, folder, this`errorsShown
      ensures Valid() && metadata == None
      ensures old(metadata) == None ==> folder.files == old(folder.files) && errorsShown == old(errorsShown)
      ensures old(metadata).Some? ==>
                && IsScan(Parsed(old(folder.files)), folder.failsAfter, visited, data)
                && folder.files == FlushedFiles(old(folder.files), Parsed(old(folder.files)), folder.undeletable,
                                                visited, data, old(metadata).value, now)
                && errorsShown == old(errorsShown) + if folder.failsAfter.Some? then 1 else 0
    {
      data, visited := DocumentChanged(now);
    }
  }
}

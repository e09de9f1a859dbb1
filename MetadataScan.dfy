/**
 * What scanning the metadata folder, looking a document up and flushing a record do to
 * the folder, stated over the folder's contents: a map from file name to file text.
 */
module MetadataScan {
  import opened Wrappers
  import opened Numbers
  import opened FilePaths
  import opened MetadataCodec

  /** How many records a lookup leaves in the folder. */
  const MAX_ENTRIES: nat := 20

  /** The metadata folder: file name to file text. */
  type Files = map<string, string>

  /** The record read from each file of a folder. */
  type Records = map<string, Entry>

  /**
   * Whether `deleteMetadataFile` really removes `name`: it refuses every name whose
   * extension is not `.metadata`, and a removal the file system rejects has no effect.
   */
  predicate Removable(name: string, undeletable: set<string>)
  {
    Extension(name) == METADATA_EXT && name !in undeletable
  }

  /** The folder after `deleteMetadataFile` was called on each of `names`. */
  function RemoveAll(files: Files, undeletable: set<string>, names: set<string>): (r: Files)
    ensures forall n :: n in r ==> n in files && r[n] == files[n]
    ensures forall n :: n in files && n !in r ==> n in names && Removable(n, undeletable)
    ensures forall n :: n in names && Removable(n, undeletable) ==> n !in r
  {
    map n | n in files && !(n in names && Removable(n, undeletable)) :: files[n]
  }

  /** What opening a file gives: its text, or nothing to read when it is not there. */
  function ContentOf(files: Files, name: string): string
  {
    if name in files then files[name] else ""
  }

  /** The record each file holds, as `loadMetadataFile` reads it. */
  function Parsed(files: Files): Records
  {
    map n | n in files :: ParseFile(n, files[n])
  }

  /**
   * `p` holds, for each file of `files`, the record read from it. The link to the parser
   * is made only where a proof mentions the parse of that file.
   */
  ghost predicate RecordsOf(p: Records, files: Files)
  {
    && p.Keys == files.Keys
    && forall n {:trigger ParseFile(n, files[n])} :: n in files ==> p[n] == ParseFile(n, files[n])
  }

  /** The records of a folder are what `RecordsOf` describes, and each names its file. */
  lemma ParsedRecords(files: Files)
    ensures RecordsOf(Parsed(files), files) && Named(Parsed(files))
  {
  }

  /** Each record names the file it was read from. */
  predicate Named(p: Records)
  {
    forall n :: n in p ==> p[n].metadataFile == n
  }

  /** The visited files whose record is not valid. */
  function CorruptNames(p: Records, visited: set<string>): set<string>
  {
    set n | n in visited && n in p && !p[n].valid
  }

  /** The valid records of the visited files. */
  function ValidEntries(p: Records, visited: set<string>): set<Entry>
  {
    set n | n in visited && n in p && p[n].valid :: p[n]
  }

  /** The order `sortMetadata` sorts by: newest first. */
  predicate SortedNewestFirst(s: seq<Entry>)
  {
    forall i, j :: 0 <= i < j < |s| ==> s[i].time >= s[j].time
  }

  predicate Distinct(s: seq<Entry>)
  {
    forall i, j :: 0 <= i < j < |s| ==> s[i] != s[j]
  }

  /**
   * What `loadList` returns, given the records `p` of the folder's files: each valid
   * record of the files it visited, once. With a listing that works it visits every file
   * and sorts newest first; when the listing fails after k entries it has visited that
   * many files and returns their records unsorted.
   */
  ghost predicate IsScan(p: Records, failsAfter: Option<nat>, visited: set<string>, data: seq<Entry>)
  {
    && visited <= p.Keys
    && (failsAfter.None? ==> visited == p.Keys && SortedNewestFirst(data))
    && (failsAfter.Some? ==> |visited| == if failsAfter.value < |p.Keys| then failsAfter.value else |p.Keys|)
    && Distinct(data)
    && (forall e :: e in data <==> e in ValidEntries(p, visited))
  }

  /** The files of the records at positions `lo` up to (not including) `hi`. */
  function FilesBetween(s: seq<Entry>, lo: int, hi: int): set<string>
  {
    set j | lo <= j < hi && 0 <= j < |s| :: s[j].metadataFile
  }

  /** The files of the records of `s` whose document is `path`. */
  function FilesFor(s: seq<Entry>, path: string): set<string>
  {
    set j | 0 <= j < |s| && s[j].path == path :: s[j].metadataFile
  }

  /** One more record of a scan looked at: its file joins those for `path` when it is for `path`. */
  lemma FilesForStep(s: seq<Entry>, i: nat, path: string)
    requires i < |s|
    ensures FilesFor(s[..i + 1], path) == FilesFor(s[..i], path) + if s[i].path == path then {s[i].metadataFile} else {}
  {
    var a, b := s[..i + 1], s[..i];
    assert forall j :: 0 <= j < i ==> a[j] == b[j];
    assert a[i] == s[i];
  }

  /** The folder after a scan that visited `visited`: each corrupt file among them deleted. */
  function ScannedFiles(files: Files, p: Records, undeletable: set<string>, visited: set<string>): Files
  {
    RemoveAll(files, undeletable, CorruptNames(p, visited))
  }

  /** The folder after a lookup whose scan visited `visited` and returned `data`. */
  function EvictedFiles(files: Files, p: Records, undeletable: set<string>, visited: set<string>, data: seq<Entry>): Files
  {
    RemoveAll(ScannedFiles(files, p, undeletable, visited), undeletable, FilesBetween(data, MAX_ENTRIES, |data|))
  }

  /** The folder after a flush of record `m` at time `now` whose scan visited `visited` and returned `data`. */
  function FlushedFiles(files: Files, p: Records, undeletable: set<string>, visited: set<string>, data: seq<Entry>,
                        m: Entry, now: Int64): Files
  {
    RemoveAll(ScannedFiles(files, p, undeletable, visited), undeletable, FilesFor(data, m.path))
      [MetadataFileName(now) := Encode(m)]
  }

  /** A record placed between the newer and the older ones keeps the order. */
  lemma InsertKeepsOrder(s: seq<Entry>, j: nat, x: Entry)
    requires SortedNewestFirst(s) && j <= |s|
    requires forall k :: 0 <= k < j ==> s[k].time >= x.time
    requires forall k :: j <= k < |s| ==> s[k].time <= x.time
    ensures SortedNewestFirst(s[..j] + [x] + s[j..])
  {
    var r := s[..j] + [x] + s[j..];
    forall a, b | 0 <= a < b < |r|
      ensures r[a].time >= r[b].time
    {
      var ta := if a < j then s[a].time else if a == j then x.time else s[a - 1].time;
      var tb := if b < j then s[b].time else if b == j then x.time else s[b - 1].time;
      assert r[a].time == ta && r[b].time == tb;
    }
  }

  /** Insert `x` into a newest-first sequence, after every record at least as new. */
  method InsertNewestFirst(s: seq<Entry>, x: Entry) returns (r: seq<Entry>)
    requires SortedNewestFirst(s)
    ensures SortedNewestFirst(r)
    ensures multiset(r) == multiset(s) + multiset{x}
  {
    var j := 0;
    while j < |s| && s[j].time >= x.time
      invariant 0 <= j <= |s|
      invariant forall k :: 0 <= k < j ==> s[k].time >= x.time
    {
      j := j + 1;
    }
    InsertKeepsOrder(s, j, x);
    r := s[..j] + [x] + s[j..];
    assert s == s[..j] + s[j..];
  }

  /** `std::sort(data.begin(), data.end(), sortMetadata)`: the records reordered newest first. */
  method SortNewestFirst(s: seq<Entry>) returns (r: seq<Entry>)
    ensures SortedNewestFirst(r)
    ensures multiset(r) == multiset(s)
  {
    r := [];
    for i := 0 to |s|
      invariant SortedNewestFirst(r)
      invariant multiset(r) == multiset(s[..i])
    {
      r := InsertNewestFirst(r, s[i]);
      assert s[..i + 1] == s[..i] + [s[i]];
    }
    assert s[..|s|] == s;
  }

  /** The first record for document `path`, or the "no data" sentinel. */
  function FirstFor(s: seq<Entry>, path: string): (e: Entry)
    ensures (exists i :: 0 <= i < |s| && s[i].path == path) ==>
              exists i :: 0 <= i < |s| && s[i] == e && e.path == path &&
                          forall j :: 0 <= j < i ==> s[j].path != path
    ensures (forall i :: 0 <= i < |s| ==> s[i].path != path) ==> e == DefaultEntry()
  {
    if s == [] then DefaultEntry()
    else if s[0].path == path then s[0]
    else FirstFor(s[1..], path)
  }

  /** The search loop of `getForFile`: stop at the first record for `path`. */
  method FindFor(s: seq<Entry>, path: string) returns (entry: Entry)
    ensures entry == FirstFor(s, path)
  {
    entry := DefaultEntry();
    var i := 0;
    while i < |s|
      invariant 0 <= i <= |s|
      invariant FirstFor(s, path) == FirstFor(s[i..], path)
    {
      if s[i].path == path {
        entry := s[i];
        break;
      }
      assert s[i..][1..] == s[i + 1..];
      i := i + 1;
    }
  }

  /** Deleting one set of names, then another, is deleting both. */
  lemma RemoveAllUnion(files: Files, undeletable: set<string>, a: set<string>, b: set<string>)
    ensures RemoveAll(RemoveAll(files, undeletable, a), undeletable, b) == RemoveAll(files, undeletable, a + b)
  {
  }

  /** One more file visited: it is still as it was, and it goes only when it is corrupt. */
  lemma ScannedStep(files: Files, p: Records, undeletable: set<string>, visited: set<string>, f: string)
    requires f in files && f in p && f !in visited
    ensures var now := ScannedFiles(files, p, undeletable, visited);
            && f in now && now[f] == files[f]
            && ScannedFiles(files, p, undeletable, visited + {f}) ==
                 if p[f].valid then now else RemoveAll(now, undeletable, {f})
  {
    var c0, c1 := CorruptNames(p, visited), CorruptNames(p, visited + {f});
    assert f !in c0;
    if p[f].valid {
      assert c1 == c0;
    } else {
      assert c1 == c0 + {f};
      RemoveAllUnion(files, undeletable, c0, {f});
    }
  }

  /** One more file visited: its record joins the valid ones when it is valid. */
  lemma ValidEntriesStep(p: Records, visited: set<string>, f: string)
    requires f in p
    ensures ValidEntries(p, visited + {f}) == ValidEntries(p, visited) + if p[f].valid then {p[f]} else {}
  {
  }

  /** Moving one name from the names still to read to those read keeps them a partition. */
  lemma PartitionStep(todo: set<string>, visited: set<string>, all: set<string>, f: string)
    requires todo !! visited && todo + visited == all && f in todo
    ensures (todo - {f}) !! (visited + {f}) && (todo - {f}) + (visited + {f}) == all
    ensures |visited + {f}| == |visited| + 1
  {
  }

  /** The names still to read and those read add up to all names. */
  lemma PartitionSize(todo: set<string>, visited: set<string>, all: set<string>)
    requires todo !! visited && todo + visited == all
    ensures |all| == |todo| + |visited|
  {
  }

  /** The records read so far from the files `visited`: each valid one once, none other. */
  ghost predicate ReadSoFar(p: Records, visited: set<string>, data: seq<Entry>)
  {
    && (forall i :: 0 <= i < |data| ==> data[i].metadataFile in visited)
    && Distinct(data)
    && forall e :: e in data <==> e in ValidEntries(p, visited)
  }

  /** One more file read by the listing loop: its record is appended when it is valid. */
  lemma ReadStep(p: Records, visited: set<string>, data: seq<Entry>, f: string)
    requires Named(p) && f in p && f !in visited
    requires ReadSoFar(p, visited, data)
    ensures ReadSoFar(p, visited + {f}, if p[f].valid then data + [p[f]] else data)
  {
    ValidEntriesStep(p, visited, f);
    if p[f].valid {
      var next := data + [p[f]];
      assert p[f] !in data;
      assert forall i :: 0 <= i < |data| ==> next[i] == data[i];
    }
  }

  lemma {:induction false} DistinctCounts(s: seq<Entry>)
    ensures Distinct(s) <==> forall x :: multiset(s)[x] <= 1
  {
    if s != [] {
      var t, last := s[..|s| - 1], s[|s| - 1];
      assert s == t + [last];
      assert multiset(s) == multiset(t) + multiset{last};
      DistinctCounts(t);
      if Distinct(s) {
        assert Distinct(t);
        assert last !in t;
        assert multiset(t)[last] == 0;
      } else {
        var i, j :| 0 <= i < j < |s| && s[i] == s[j];
        if j < |s| - 1 {
          assert t[i] == t[j];
          assert !Distinct(t);
          var x :| multiset(t)[x] > 1;
          assert multiset(s)[x] > 1;
        } else {
          assert t[i] == last;
          assert multiset(s)[last] == multiset(t)[last] + 1;
        }
      }
    }
  }

  /** Reordering a sequence without repetitions leaves it without repetitions. */
  lemma DistinctPermutation(s: seq<Entry>, r: seq<Entry>)
    requires Distinct(s) && multiset(r) == multiset(s)
    ensures Distinct(r)
  {
    DistinctCounts(s);
    DistinctCounts(r);
  }

  /** No two records of `s` come from the same file. */
  predicate DistinctFiles(s: seq<Entry>)
  {
    forall i, j :: 0 <= i < j < |s| ==> s[i].metadataFile != s[j].metadataFile
  }

  /** Each record a scan returns is the record of a visited file, and no file gives two. */
  lemma ScanNames(p: Records, failsAfter: Option<nat>, visited: set<string>, data: seq<Entry>)
    requires Named(p) && IsScan(p, failsAfter, visited, data)
    ensures forall i :: 0 <= i < |data| ==>
              data[i].metadataFile in visited && data[i].metadataFile in p && p[data[i].metadataFile] == data[i] && data[i].valid
    ensures DistinctFiles(data)
  {
    forall i | 0 <= i < |data|
      ensures data[i].metadataFile in visited && data[i].metadataFile in p && p[data[i].metadataFile] == data[i] && data[i].valid
    {
      assert data[i] in ValidEntries(p, visited);
    }
  }

  /** In a newest-first sequence, the first record for `path` is the newest one for it. */
  lemma FirstForIsNewest(s: seq<Entry>, path: string)
    requires SortedNewestFirst(s)
    ensures forall i :: 0 <= i < |s| && s[i].path == path ==> s[i].time <= FirstFor(s, path).time
  {
    forall i | 0 <= i < |s| && s[i].path == path
      ensures s[i].time <= FirstFor(s, path).time
    {
      var k :| 0 <= k < |s| && s[k] == FirstFor(s, path) && s[k].path == path &&
               forall j :: 0 <= j < k ==> s[j].path != path;
      assert k <= i;
    }
  }

  /**
   * Lookup: with a listing that works, the record found for `path` is valid exactly when
   * some file holds a valid record for it, and then it is the newest of them; otherwise it
   * is the "no data" sentinel.
   */
  lemma LookupFindsNewest(p: Records, visited: set<string>, data: seq<Entry>, path: string)
    requires Named(p) && IsScan(p, None, visited, data)
    ensures var e := FirstFor(data, path);
            && (e.valid <==> exists n :: n in p && p[n].valid && p[n].path == path)
            && (e.valid ==> e.path == path && e in ValidEntries(p, p.Keys))
            && (!e.valid ==> e == DefaultEntry())
            && (forall n :: n in p && p[n].valid && p[n].path == path ==> p[n].time <= e.time)
  {
    var e := FirstFor(data, path);
    ScanNames(p, None, visited, data);
    if n :| n in p && p[n].valid && p[n].path == path {
      var i := ListedAt(p, None, visited, data, n);
      assert e in data;
      assert e in ValidEntries(p, visited);
      FirstForIsNewest(data, path);
      forall n' | n' in p && p[n'].valid && p[n'].path == path
        ensures p[n'].time <= e.time
      {
        var i' := ListedAt(p, None, visited, data, n');
      }
    }
  }

  /** The files of the first `hi` records are that many when no two come from one file. */
  lemma {:induction false} FilesBetweenSize(s: seq<Entry>, hi: nat)
    requires DistinctFiles(s) && hi <= |s|
    ensures |FilesBetween(s, 0, hi)| == hi
  {
    if hi > 0 {
      FilesBetweenSize(s, hi - 1);
      assert FilesBetween(s, 0, hi) == FilesBetween(s, 0, hi - 1) + {s[hi - 1].metadataFile};
      assert s[hi - 1].metadataFile !in FilesBetween(s, 0, hi - 1);
    } else {
      assert FilesBetween(s, 0, hi) == {};
    }
  }

  /** A file of a valid record that a scan visited is listed, at some position. */
  lemma ListedAt(p: Records, failsAfter: Option<nat>, visited: set<string>, data: seq<Entry>, n: string) returns (i: nat)
    requires Named(p) && IsScan(p, failsAfter, visited, data)
    requires n in visited && n in p && p[n].valid
    ensures i < |data| && data[i] == p[n] && data[i].metadataFile == n
  {
    assert p[n] in ValidEntries(p, visited);
    assert p[n] in data;
    i :| 0 <= i < |data| && data[i] == p[n];
  }

  lemma RemoveAllMember(files: Files, undeletable: set<string>, names: set<string>, n: string)
    ensures n in RemoveAll(files, undeletable, names) <==> n in files && !(n in names && Removable(n, undeletable))
  {
  }

  lemma FilesBetweenHas(s: seq<Entry>, lo: int, hi: int)
    ensures forall j :: lo <= j < hi && 0 <= j < |s| ==> s[j].metadataFile in FilesBetween(s, lo, hi)
  {
  }

  lemma FilesForHas(s: seq<Entry>, path: string)
    ensures forall j :: 0 <= j < |s| && s[j].path == path ==> s[j].metadataFile in FilesFor(s, path)
  {
  }

  /** A removable file that a complete scan kept holds a valid record. */
  lemma ScannedKeepsValid(files: Files, p: Records, undeletable: set<string>, visited: set<string>, n: string)
    requires p.Keys == files.Keys && visited == p.Keys
    requires n in ScannedFiles(files, p, undeletable, visited) && Removable(n, undeletable)
    ensures n in files && p[n].valid
  {
    RemoveAllMember(files, undeletable, CorruptNames(p, visited), n);
  }

  /** Each file a lookup keeps is among the 20 newest and newer than each it evicted. */
  lemma EvictionKeepsOnlyNewest(files: Files, p: Records, undeletable: set<string>, visited: set<string>, data: seq<Entry>,
                                n: string)
    requires p.Keys == files.Keys && Named(p)
    requires IsScan(p, None, visited, data)
    requires Removable(n, undeletable) && n in EvictedFiles(files, p, undeletable, visited, data)
    ensures n in FilesBetween(data, 0, MAX_ENTRIES)
    ensures forall j :: MAX_ENTRIES <= j < |data| ==> p[n].time >= data[j].time
  {
    var scanned := ScannedFiles(files, p, undeletable, visited);
    var evicted := FilesBetween(data, MAX_ENTRIES, |data|);
    RemoveAllMember(scanned, undeletable, evicted, n);
    ScannedKeepsValid(files, p, undeletable, visited, n);
    var i := ListedAt(p, None, visited, data, n);
    FilesBetweenHas(data, MAX_ENTRIES, |data|);
    assert i < MAX_ENTRIES;
    FilesBetweenHas(data, 0, MAX_ENTRIES);
  }

  /** Each file of the 20 newest records survives a lookup. */
  lemma EvictionKeepsAllNewest(files: Files, p: Records, undeletable: set<string>, visited: set<string>, data: seq<Entry>,
                               n: string)
    requires p.Keys == files.Keys && Named(p)
    requires IsScan(p, None, visited, data)
    requires n in FilesBetween(data, 0, MAX_ENTRIES)
    ensures n in EvictedFiles(files, p, undeletable, visited, data)
  {
    var scanned := ScannedFiles(files, p, undeletable, visited);
    var evicted := FilesBetween(data, MAX_ENTRIES, |data|);
    ScanNames(p, None, visited, data);
    var i :| 0 <= i < MAX_ENTRIES && 0 <= i < |data| && data[i].metadataFile == n;
    assert n !in evicted;
    RemoveAllMember(files, undeletable, CorruptNames(p, visited), n);
    RemoveAllMember(scanned, undeletable, evicted, n);
  }

  /**
   * Eviction: with a listing that works and a folder of record files that can all be
   * removed, a lookup leaves exactly the files of the 20 newest valid records, and each
   * of them is at least as new as every record it evicted.
   */
  lemma EvictionKeepsNewest(files: Files, p: Records, undeletable: set<string>, visited: set<string>, data: seq<Entry>)
    requires p.Keys == files.Keys && Named(p)
    requires IsScan(p, None, visited, data)
    requires forall n :: n in files ==> Removable(n, undeletable)
    ensures var after := EvictedFiles(files, p, undeletable, visited, data);
            && after.Keys == FilesBetween(data, 0, MAX_ENTRIES)
            && |after.Keys| == (if |data| < MAX_ENTRIES then |data| else MAX_ENTRIES)
            && forall n, j :: n in after && MAX_ENTRIES <= j < |data| ==> p[n].time >= data[j].time
  {
    var after := EvictedFiles(files, p, undeletable, visited, data);
    var kept := FilesBetween(data, 0, MAX_ENTRIES);
    forall n, j | n in after && MAX_ENTRIES <= j < |data|
      ensures p[n].time >= data[j].time
    {
      EvictionKeepsOnlyNewest(files, p, undeletable, visited, data, n);
    }
    assert after.Keys == kept by {
      forall n | n in after
        ensures n in kept
      {
        EvictionKeepsOnlyNewest(files, p, undeletable, visited, data, n);
      }
      forall n | n in kept
        ensures n in after
      {
        EvictionKeepsAllNewest(files, p, undeletable, visited, data, n);
      }
    }
    ListedCount(p, visited, data);
  }

  /** A complete scan lists min(20, its length) files among its first 20 records. */
  lemma ListedCount(p: Records, visited: set<string>, data: seq<Entry>)
    requires Named(p) && IsScan(p, None, visited, data)
    ensures |FilesBetween(data, 0, MAX_ENTRIES)| == (if |data| < MAX_ENTRIES then |data| else MAX_ENTRIES)
  {
    var hi := if |data| < MAX_ENTRIES then |data| else MAX_ENTRIES;
    assert FilesBetween(data, 0, MAX_ENTRIES) == FilesBetween(data, 0, hi);
    ScanNames(p, None, visited, data);
    FilesBetweenSize(data, hi);
  }

  /**
   * Flush: with a listing that works, the folder afterwards holds the new record's file
   * `<now>.metadata`; every other file in it is unchanged, and none that can be removed
   * holds a record for the flushed document or is corrupt. The only files that went are
   * removable ones that were corrupt or held a record for that document.
   */
  lemma FlushLeavesOneLive(files: Files, p: Records, undeletable: set<string>, visited: set<string>, data: seq<Entry>,
                           m: Entry, now: Int64)
    requires p.Keys == files.Keys && Named(p)
    requires IsScan(p, None, visited, data)
    ensures var after := FlushedFiles(files, p, undeletable, visited, data, m, now);
            var name := MetadataFileName(now);
            && name in after && after[name] == Encode(m)
            && (forall n :: n in after && n != name ==> n in files && after[n] == files[n])
            && (forall n :: n in after && n != name && Removable(n, undeletable) ==> p[n].valid && p[n].path != m.path)
            && (forall n :: n in files && n != name && n !in after ==>
                  Removable(n, undeletable) && (!p[n].valid || p[n].path == m.path))
  {
    var name := MetadataFileName(now);
    var scanned := ScannedFiles(files, p, undeletable, visited);
    var stale := FilesFor(data, m.path);
    ScanNames(p, None, visited, data);
    FilesForHas(data, m.path);
    forall n | n in RemoveAll(scanned, undeletable, stale) && Removable(n, undeletable)
      ensures p[n].valid && p[n].path != m.path
    {
      RemoveAllMember(scanned, undeletable, stale, n);
      ScannedKeepsValid(files, p, undeletable, visited, n);
      var i := ListedAt(p, None, visited, data, n);
    }
    forall n | n in files && n !in RemoveAll(scanned, undeletable, stale)
      ensures Removable(n, undeletable) && (!p[n].valid || p[n].path == m.path)
    {
      RemoveAllMember(files, undeletable, CorruptNames(p, visited), n);
      RemoveAllMember(scanned, undeletable, stale, n);
      if n in scanned {
        var i :| 0 <= i < |data| && data[i].path == m.path && data[i].metadataFile == n;
      }
    }
  }

  /** After a flush into a folder whose files can all be removed, only the new file holds a valid record for the document. */
  lemma FlushedOnlyRecordFor(files: Files, p: Records, undeletable: set<string>, visited: set<string>, data: seq<Entry>,
                             m: Entry, now: Int64, q: Records)
    requires p.Keys == files.Keys && Named(p)
    requires IsScan(p, None, visited, data)
    requires forall n :: n in files ==> Removable(n, undeletable)
    requires var after := FlushedFiles(files, p, undeletable, visited, data, m, now);
             && q.Keys == after.Keys
             && forall n :: n in q && n in files && after[n] == files[n] ==> q[n] == p[n]
    ensures forall n :: n in q && q[n].valid && q[n].path == m.path ==> n == MetadataFileName(now)
  {
    var after := FlushedFiles(files, p, undeletable, visited, data, m, now);
    FlushLeavesOneLive(files, p, undeletable, visited, data, m, now);
    forall n | n in q && n != MetadataFileName(now)
      ensures !(q[n].valid && q[n].path == m.path)
    {
      assert n in files && after[n] == files[n];
      assert q[n] == p[n];
    }
  }

  /** `FlushThenLookup` over the records of the folder before and after the flush. */
  lemma FlushThenLookupRecords(files: Files, p: Records, undeletable: set<string>, visited: set<string>, data: seq<Entry>,
                               m: Entry, now: Int64, q: Records, visited': set<string>, data': seq<Entry>)
    requires p.Keys == files.Keys && Named(p)
    requires IsScan(p, None, visited, data)
    requires forall n :: n in files ==> Removable(n, undeletable)
    requires var after := FlushedFiles(files, p, undeletable, visited, data, m, now);
             && q.Keys == after.Keys
             && forall n :: n in q && n in files && after[n] == files[n] ==> q[n] == p[n]
    requires MetadataFileName(now) in q
    requires q[MetadataFileName(now)] == Entry(MetadataFileName(now), true, m.path, m.zoom, m.page, now)
    requires IsScan(q, None, visited', data')
    ensures FirstFor(data', m.path) == Entry(MetadataFileName(now), true, m.path, m.zoom, m.page, now)
  {
    var name := MetadataFileName(now);
    var x := Entry(name, true, m.path, m.zoom, m.page, now);
    FlushedOnlyRecordFor(files, p, undeletable, visited, data, m, now, q);
    assert x in ValidEntries(q, visited');
    assert x in data';
    forall i | 0 <= i < |data'| && data'[i].path == m.path
      ensures data'[i] == x
    {
      assert data'[i] in ValidEntries(q, visited');
    }
  }

  /**
   * Flush, then look up: when every file in the folder can be removed, looking the
   * flushed document up afterwards finds the record just written, with the page and zoom
   * that were flushed and the time in its file name.
   */
  lemma FlushThenLookup(files: Files, undeletable: set<string>, visited: set<string>, data: seq<Entry>,
                        m: Entry, now: Int64, visited': set<string>, data': seq<Entry>)
    requires IsScan(Parsed(files), None, visited, data)
    requires forall n :: n in files ==> Removable(n, undeletable)
    requires '\n' !in m.path
    requires IsScan(Parsed(FlushedFiles(files, Parsed(files), undeletable, visited, data, m, now)), None, visited', data')
    ensures FirstFor(data', m.path) == Entry(MetadataFileName(now), true, m.path, m.zoom, m.page, now)
  {
    var p := Parsed(files);
    var after := FlushedFiles(files, p, undeletable, visited, data, m, now);
    var q := Parsed(after);
    var name := MetadataFileName(now);
    ParsedRecords(files);
    ParsedRecords(after);
    FlushLeavesOneLive(files, p, undeletable, visited, data, m, now);
    assert q[name] == Entry(name, true, m.path, m.zoom, m.page, now) by {
      EncodeRoundTrip(m, now);
    }
    FlushThenLookupRecords(files, p, undeletable, visited, data, m, now, q, visited', data');
  }
}

/**
  File discovery of k1_processor.py (`_gather_files`): the directory scan that appends a record
  for every K-1 PDF whose path the record array does not hold yet. The array is an append-only
  cache keyed by path: existing records are never replaced or reordered.
*/
module Discovery {
  import opened Wrappers
  import opened Text

  /** One entry of `os.listdir("files")`: its name, whether it is a directory, and for a
      directory the names `os.listdir` gives for it, in that order. */
  datatype DirEntry = DirEntry(name: string, isDirectory: bool, files: seq<string>)

  /** One element of `k1_array`: the dictionary with keys path, investment_name,
      issuing_entity, receiving_entity and (once keys are made) k1_matching_key. */
  datatype K1Record = K1Record(
    path: string,
    investmentName: string,
    issuingEntity: Option<string>,
    receivingEntity: Option<string>,
    matchingKey: Option<string>)

  const PDF_SUFFIX := ".pdf"
  const EXCLUDED_WORD := "managers"

  /** A file the scan keeps: ends in ".pdf" and does not mention "managers", ignoring case. */
  predicate IsK1Pdf(file: string) {
    EndsWith(Lower(file), PDF_SUFFIX) && !Contains(Lower(file), EXCLUDED_WORD)
  }

  function FilePath(folder: string, file: string): string {
    folder + "/" + file
  }

  /** The dictionary appended for a newly found file: both entities still `None`. */
  function NewRecord(folder: string, file: string): K1Record {
    K1Record(FilePath(folder, file), folder, None, None, None)
  }

  /** `any(k1["path"] == path for k1 in records)`. */
  predicate HasPath(records: seq<K1Record>, path: string) {
    exists k :: 0 <= k < |records| && records[k].path == path
  }

  predicate IsNewK1File(existing: seq<K1Record>, folder: string, file: string) {
    IsK1Pdf(file) && !HasPath(existing, FilePath(folder, file))
  }

  /** What the inner loop appends to `new_k1_files` for one folder, in listing order. */
  function FolderRecords(existing: seq<K1Record>, folder: string, files: seq<string>): seq<K1Record> {
    if files == [] then []
    else
      var last := files[|files| - 1];
      FolderRecords(existing, folder, files[..|files| - 1])
        + (if IsNewK1File(existing, folder, last) then [NewRecord(folder, last)] else [])
  }

  /** `new_k1_files` after the whole scan: one record per new K-1 file of every directory.
      Only the array as it was before the scan is consulted, never the records found so far. */
  function NewRecords(existing: seq<K1Record>, listing: seq<DirEntry>): seq<K1Record> {
    if listing == [] then []
    else
      var entry := listing[|listing| - 1];
      NewRecords(existing, listing[..|listing| - 1])
        + (if entry.isDirectory then FolderRecords(existing, entry.name, entry.files) else [])
  }

  /** A file of the listing that the scan would append if its path were not present. */
  predicate Candidate(listing: seq<DirEntry>, d: int, k: int) {
    0 <= d < |listing| && listing[d].isDirectory && 0 <= k < |listing[d].files|
    && IsK1Pdf(listing[d].files[k])
  }

  // ---------------------------------------------------------------- membership

  lemma {:induction false} FolderRecordsMembership(existing: seq<K1Record>, folder: string, files: seq<string>, r: K1Record)
    ensures r in FolderRecords(existing, folder, files)
        <==> exists k :: 0 <= k < |files| && IsNewK1File(existing, folder, files[k]) && r == NewRecord(folder, files[k])
  {
    if files != [] {
      var init := files[..|files| - 1];
      FolderRecordsMembership(existing, folder, init, r);
      if exists k :: 0 <= k < |files| && IsNewK1File(existing, folder, files[k]) && r == NewRecord(folder, files[k]) {
        var k :| 0 <= k < |files| && IsNewK1File(existing, folder, files[k]) && r == NewRecord(folder, files[k]);
        if k < |files| - 1 {
          assert init[k] == files[k];
        }
      }
    }
  }

  /** A record is appended exactly when it is the fresh record of a K-1 file in a directory of
      the listing whose path the array does not already hold. */
  lemma {:induction false} NewRecordsMembership(existing: seq<K1Record>, listing: seq<DirEntry>, r: K1Record)
    ensures r in NewRecords(existing, listing)
        <==> exists d, k :: Candidate(listing, d, k)
               && !HasPath(existing, FilePath(listing[d].name, listing[d].files[k]))
               && r == NewRecord(listing[d].name, listing[d].files[k])
  {
    if listing != [] {
      var init := listing[..|listing| - 1];
      var entry := listing[|listing| - 1];
      NewRecordsMembership(existing, init, r);
      FolderRecordsMembership(existing, entry.name, entry.files, r);
      if exists d, k :: Candidate(listing, d, k)
           && !HasPath(existing, FilePath(listing[d].name, listing[d].files[k]))
           && r == NewRecord(listing[d].name, listing[d].files[k]) {
        var d, k :| Candidate(listing, d, k)
           && !HasPath(existing, FilePath(listing[d].name, listing[d].files[k]))
           && r == NewRecord(listing[d].name, listing[d].files[k]);
        if d < |listing| - 1 {
          assert init[d] == listing[d];
          assert Candidate(init, d, k);
        }
      }
      if exists d, k :: Candidate(init, d, k)
           && !HasPath(existing, FilePath(init[d].name, init[d].files[k]))
           && r == NewRecord(init[d].name, init[d].files[k]) {
        var d, k :| Candidate(init, d, k)
           && !HasPath(existing, FilePath(init[d].name, init[d].files[k]))
           && r == NewRecord(init[d].name, init[d].files[k]);
        assert init[d] == listing[d];
        assert Candidate(listing, d, k);
      }
      if entry.isDirectory && exists k :: 0 <= k < |entry.files| && IsNewK1File(existing, entry.name, entry.files[k]) && r == NewRecord(entry.name, entry.files[k]) {
        var k :| 0 <= k < |entry.files| && IsNewK1File(existing, entry.name, entry.files[k]) && r == NewRecord(entry.name, entry.files[k]);
        assert Candidate(listing, |listing| - 1, k);
      }
    }
  }

  // ---------------------------------------------------------------- idempotence

  /** Nothing is appended when every K-1 file of the listing already has its path in the array. */
  lemma NothingNewWhenAllPresent(existing: seq<K1Record>, listing: seq<DirEntry>)
    requires forall d, k :: Candidate(listing, d, k) ==> HasPath(existing, FilePath(listing[d].name, listing[d].files[k]))
    ensures NewRecords(existing, listing) == []
  {
    if NewRecords(existing, listing) != [] {
      var r := NewRecords(existing, listing)[0];
      NewRecordsMembership(existing, listing, r);
    }
  }

  /** Scanning the same listing a second time adds nothing. */
  lemma GatherIdempotent(existing: seq<K1Record>, listing: seq<DirEntry>)
    ensures NewRecords(existing + NewRecords(existing, listing), listing) == []
  {
    var found := NewRecords(existing, listing);
    var all := existing + found;
    forall d, k | Candidate(listing, d, k)
      ensures HasPath(all, FilePath(listing[d].name, listing[d].files[k]))
    {
      var p := FilePath(listing[d].name, listing[d].files[k]);
      if HasPath(existing, p) {
        var j :| 0 <= j < |existing| && existing[j].path == p;
        assert all[j] == existing[j];
      } else {
        var r := NewRecord(listing[d].name, listing[d].files[k]);
        NewRecordsMembership(existing, listing, r);
        var j :| 0 <= j < |found| && found[j] == r;
        assert all[|existing| + j] == r;
      }
    }
    NothingNewWhenAllPresent(all, listing);
  }

  // ---------------------------------------------------------------- unique paths

  predicate PathsUnique(records: seq<K1Record>) {
    forall i, j :: 0 <= i < j < |records| ==> records[i].path != records[j].path
  }

  /** What a real directory tree guarantees: names without '/', distinct entry names,
      distinct file names inside each directory. */
  predicate WellFormedListing(listing: seq<DirEntry>) {
    && (forall d :: 0 <= d < |listing| ==> '/' !in listing[d].name)
    && (forall d, e :: 0 <= d < e < |listing| ==> listing[d].name != listing[e].name)
    && (forall d, k, m :: 0 <= d < |listing| && 0 <= k < m < |listing[d].files| ==> listing[d].files[k] != listing[d].files[m])
  }

  /** The first '/' of a path sits right after its folder name. */
  lemma SlashAfterFolder(a: string, f: string)
    requires '/' !in a
    ensures FilePath(a, f)[|a|] == '/'
    ensures forall i :: 0 <= i < |a| ==> FilePath(a, f)[i] != '/'
  {
    assert forall i :: 0 <= i < |a| ==> FilePath(a, f)[i] == a[i];
  }

  /** A path names its folder and file unambiguously when folders have no '/'. */
  lemma FilePathInjective(a: string, f: string, b: string, g: string)
    requires '/' !in a && '/' !in b
    ensures FilePath(a, f) == FilePath(b, g) ==> a == b && f == g
  {
    SlashAfterFolder(a, f);
    SlashAfterFolder(b, g);
    assert FilePath(a, f)[..|a|] == a && FilePath(a, f)[|a| + 1..] == f;
    assert FilePath(b, g)[..|b|] == b && FilePath(b, g)[|b| + 1..] == g;
  }

  /** Inside one folder, different files have different paths. */
  lemma FilePathInFolder(a: string, f: string, g: string)
    ensures FilePath(a, f) == FilePath(a, g) ==> f == g
  {
    assert FilePath(a, f)[|a| + 1..] == f && FilePath(a, g)[|a| + 1..] == g;
  }

  lemma UniqueConcat(a: seq<K1Record>, b: seq<K1Record>)
    requires PathsUnique(a) && PathsUnique(b)
    requires forall i, j :: 0 <= i < |a| && 0 <= j < |b| ==> a[i].path != b[j].path
    ensures PathsUnique(a + b)
  {
    forall i, j | 0 <= i < j < |a + b| ensures (a + b)[i].path != (a + b)[j].path {
      if j < |a| {
      } else if i >= |a| {
        assert (a + b)[i] == b[i - |a|] && (a + b)[j] == b[j - |a|];
      } else {
        assert (a + b)[j] == b[j - |a|];
      }
    }
  }

  lemma {:induction false} FolderRecordsUnique(existing: seq<K1Record>, folder: string, files: seq<string>)
    requires forall k, m :: 0 <= k < m < |files| ==> files[k] != files[m]
    ensures PathsUnique(FolderRecords(existing, folder, files))
  {
    if files != [] {
      var init := files[..|files| - 1];
      var last := files[|files| - 1];
      var before := FolderRecords(existing, folder, init);
      FolderRecordsUnique(existing, folder, init);
      if IsNewK1File(existing, folder, last) {
        forall i | 0 <= i < |before| ensures before[i].path != FilePath(folder, last) {
          FolderRecordsMembership(existing, folder, init, before[i]);
          var k :| 0 <= k < |init| && IsNewK1File(existing, folder, init[k]) && before[i] == NewRecord(folder, init[k]);
          assert init[k] == files[k] != last;
          FilePathInFolder(folder, init[k], last);
        }
        UniqueConcat(before, [NewRecord(folder, last)]);
      }
    }
  }

  /** Records found in earlier folders never share a path with those of a later, differently named folder. */
  lemma PathsDifferAcrossFolders(existing: seq<K1Record>, init: seq<DirEntry>, entry: DirEntry)
    requires '/' !in entry.name
    requires forall d :: 0 <= d < |init| ==> '/' !in init[d].name && init[d].name != entry.name
    ensures forall i, j :: 0 <= i < |NewRecords(existing, init)| && 0 <= j < |FolderRecords(existing, entry.name, entry.files)|
              ==> NewRecords(existing, init)[i].path != FolderRecords(existing, entry.name, entry.files)[j].path
  {
    var before := NewRecords(existing, init);
    var more := FolderRecords(existing, entry.name, entry.files);
    forall i, j | 0 <= i < |before| && 0 <= j < |more| ensures before[i].path != more[j].path {
      assert before[i] in before && more[j] in more;
      NewRecordsMembership(existing, init, before[i]);
      var d, k :| Candidate(init, d, k) && before[i] == NewRecord(init[d].name, init[d].files[k]);
      FolderRecordsMembership(existing, entry.name, entry.files, more[j]);
      var m :| 0 <= m < |entry.files| && more[j] == NewRecord(entry.name, entry.files[m]);
      assert '/' !in init[d].name && init[d].name != entry.name;
      var r := NewRecord(init[d].name, init[d].files[k]);
      assert before[i] == r;
      assert r.path == FilePath(init[d].name, init[d].files[k]);
      var q := NewRecord(entry.name, entry.files[m]);
      assert more[j] == q;
      assert q.path == FilePath(entry.name, entry.files[m]);
      FilePathInjective(init[d].name, init[d].files[k], entry.name, entry.files[m]);
    }
  }

  lemma {:induction false} NewRecordsUnique(existing: seq<K1Record>, listing: seq<DirEntry>)
    requires WellFormedListing(listing)
    ensures PathsUnique(NewRecords(existing, listing))
  {
    if listing != [] {
      var init := listing[..|listing| - 1];
      var entry := listing[|listing| - 1];
      assert forall d :: 0 <= d < |init| ==> init[d] == listing[d];
      assert WellFormedListing(init);
      NewRecordsUnique(existing, init);
      if entry.isDirectory {
        FolderRecordsUnique(existing, entry.name, entry.files);
        PathsDifferAcrossFolders(existing, init, entry);
        UniqueConcat(NewRecords(existing, init), FolderRecords(existing, entry.name, entry.files));
      }
    }
  }

  /** Gathering keeps paths unique: the array never holds two records for one file. */
  lemma GatherKeepsPathsUnique(existing: seq<K1Record>, listing: seq<DirEntry>)
    requires PathsUnique(existing) && WellFormedListing(listing)
    ensures PathsUnique(existing + NewRecords(existing, listing))
  {
    var found := NewRecords(existing, listing);
    NewRecordsUnique(existing, listing);
    forall i, j | 0 <= i < |existing| && 0 <= j < |found| ensures existing[i].path != found[j].path {
      NewRecordsMembership(existing, listing, found[j]);
    }
    UniqueConcat(existing, found);
  }
}

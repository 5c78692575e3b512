/** `clean_dataset`: one pass over a folder that deletes, in place, every
    regular file that is not an image, is blurry, or repeats a hash already
    seen in this pass, and reports how many files it scanned and removed. */
module Cleanup {
  import opened Screening
  import opened Storage

  /** The counters the pass prints. `cleanup.py` also prints the kept count,
      computed as `total_files - removed_files`. */
  datatype Report = Report(total: nat, removed: nat) {
    function KeptCount(): (k: int)
      ensures k <= total
      ensures removed <= total ==> 0 <= k
    {
      total - removed
    }
  }

  /** `listing` is what `os.listdir` returns for `files`: each entry exactly
      once, in an order the platform chooses. */
  ghost predicate Enumerates(files: map<string, FileFacts>, listing: seq<string>) {
    (forall name :: name in files <==> name in listing) &&
    (forall i, j :: 0 <= i < j < |listing| ==> listing[i] != listing[j])
  }

  /** The facts of the listed entries, in scan order. */
  function FactsOf(files: map<string, FileFacts>, listing: seq<string>): (fs: seq<FileFacts>)
    requires forall i :: 0 <= i < |listing| ==> listing[i] in files
    ensures |fs| == |listing| && forall i :: 0 <= i < |listing| ==> fs[i] == files[listing[i]]
  {
    seq(|listing|, i requires 0 <= i < |listing| => files[listing[i]])
  }

  /** The names a pass with outcomes `os` deletes. */
  ghost function RejectedNames(listing: seq<string>, os: seq<Outcome>): (rejected: set<string>)
    requires |listing| == |os|
    ensures forall name :: name in rejected ==> name in listing
  {
    if os == [] then {}
    else
      var n := |os| - 1;
      RejectedNames(listing[..n], os[..n]) + if os[n].Removed() then {listing[n]} else {}
  }

  /** An already curated folder: every regular file is a sharp image, and no
      two regular files share a hash. */
  ghost predicate CuratedFolder(files: map<string, FileFacts>, threshold: real) {
    (forall name :: name in files && files[name].isFile ==> Sharp(files[name], threshold)) &&
    (forall a, b :: a in files && b in files && a != b && files[a].isFile && files[b].isFile ==>
       files[a].hash != files[b].hash)
  }

  method CleanDataset(folder: Folder<FileFacts>, listing: seq<string>, blurThreshold: real)
    returns (report: Report)
    requires Enumerates(folder.files, listing)
    modifies folder
    ensures var os := Outcomes(FactsOf(old(folder.files), listing), blurThreshold);
            report == Report(Total(os), RemovedCount(os)) &&
            folder.files == old(folder.files) - RejectedNames(listing, os)
  {
    ghost var fs := FactsOf(folder.files, listing);
    var totalFiles, removedFiles := 0, 0;
    var seenHashes: set<Fingerprint> := {};
    for i := 0 to |listing|
      invariant seenHashes == SeenAfter(fs[..i], blurThreshold)
      invariant totalFiles == Total(Outcomes(fs[..i], blurThreshold))
      invariant removedFiles == RemovedCount(Outcomes(fs[..i], blurThreshold))
      invariant folder.files == old(folder.files) - RejectedNames(listing[..i], Outcomes(fs[..i], blurThreshold))
    {
      NotYetVisited(listing, Outcomes(fs[..i], blurThreshold), i);
      ghost var before := folder.files;
      ghost var counters := (totalFiles, removedFiles, seenHashes);
      totalFiles, removedFiles, seenHashes := Visit(folder, listing[i], blurThreshold, totalFiles, removedFiles, seenHashes);
      NextEntry(fs, listing, blurThreshold, i, old(folder.files), before, folder.files,
                counters.0, counters.1, counters.2, totalFiles, removedFiles, seenHashes);
    }
    assert fs[..|listing|] == fs;
    assert listing[..|listing|] == listing;
    report := Report(totalFiles, removedFiles);
  }

  /** The body of the loop for one entry: skip it unless it is a regular
      file; otherwise count it and delete it as invalid, as blurry or as a
      duplicate, the first check that fires deciding; a file that passes all
      three has its hash recorded. */
  method Visit(folder: Folder<FileFacts>, name: string, blurThreshold: real,
               totalFiles: nat, removedFiles: nat, seenHashes: set<Fingerprint>)
    returns (total: nat, removed: nat, seen: set<Fingerprint>)
    requires name in folder.files
    modifies folder
    ensures var facts := old(folder.files[name]);
            var v := Verdict(facts, blurThreshold, seenHashes);
            total == totalFiles + (if v.Counted() then 1 else 0) &&
            removed == removedFiles + (if v.Removed() then 1 else 0) &&
            seen == (if v == Kept then seenHashes + {facts.hash} else seenHashes) &&
            folder.files == if v.Removed() then old(folder.files) - {name} else old(folder.files)
  {
    total, removed, seen := totalFiles, removedFiles, seenHashes;
    var facts := folder.files[name];
    if !facts.isFile {
      return;
    }
    total := total + 1;
    if !facts.decodes {
      folder.Remove(name);
      removed := removed + 1;
      return;
    }
    if facts.sharpness < blurThreshold {
      folder.Remove(name);
      removed := removed + 1;
      return;
    }
    if facts.hash in seen {
      folder.Remove(name);
      removed := removed + 1;
    } else {
      seen := seen + {facts.hash};
    }
  }

  /** The loop invariant survives one call of `Visit`. */
  lemma NextEntry(fs: seq<FileFacts>, listing: seq<string>, threshold: real, i: nat,
                  original: map<string, FileFacts>, before: map<string, FileFacts>, after: map<string, FileFacts>,
                  total0: nat, removed0: nat, seen0: set<Fingerprint>,
                  total1: nat, removed1: nat, seen1: set<Fingerprint>)
    requires |fs| == |listing| && i < |fs|
    requires listing[i] in before && before[listing[i]] == fs[i]
    requires seen0 == SeenAfter(fs[..i], threshold)
    requires total0 == Total(Outcomes(fs[..i], threshold))
    requires removed0 == RemovedCount(Outcomes(fs[..i], threshold))
    requires before == original - RejectedNames(listing[..i], Outcomes(fs[..i], threshold))
    requires var v := Verdict(fs[i], threshold, seen0);
             total1 == total0 + (if v.Counted() then 1 else 0) &&
             removed1 == removed0 + (if v.Removed() then 1 else 0) &&
             seen1 == (if v == Kept then seen0 + {fs[i].hash} else seen0) &&
             after == if v.Removed() then before - {listing[i]} else before
    ensures seen1 == SeenAfter(fs[..i + 1], threshold)
    ensures total1 == Total(Outcomes(fs[..i + 1], threshold))
    ensures removed1 == RemovedCount(Outcomes(fs[..i + 1], threshold))
    ensures after == original - RejectedNames(listing[..i + 1], Outcomes(fs[..i + 1], threshold))
  {
    PassStep(fs, listing, threshold, i);
    RemoveOneMore(before, original, RejectedNames(listing[..i], Outcomes(fs[..i], threshold)), listing[i]);
  }

  lemma RemoveOneMore<V>(current: map<string, V>, original: map<string, V>, gone: set<string>, name: string)
    requires current == original - gone
    ensures current - {name} == original - (gone + {name})
  {
  }

  /** One iteration of the loop, in terms of the outcomes so far. */
  lemma PassStep(fs: seq<FileFacts>, listing: seq<string>, threshold: real, i: nat)
    requires |fs| == |listing| && i < |fs|
    ensures var os, seen := Outcomes(fs[..i], threshold), SeenAfter(fs[..i], threshold);
            var v := Verdict(fs[i], threshold, seen);
            Outcomes(fs[..i + 1], threshold) == os + [v] &&
            SeenAfter(fs[..i + 1], threshold) == (if v == Kept then seen + {fs[i].hash} else seen) &&
            Total(os + [v]) == Total(os) + (if v.Counted() then 1 else 0) &&
            RemovedCount(os + [v]) == RemovedCount(os) + (if v.Removed() then 1 else 0) &&
            RejectedNames(listing[..i + 1], os + [v]) ==
              RejectedNames(listing[..i], os) + (if v.Removed() then {listing[i]} else {})
  {
    var os := Outcomes(fs[..i], threshold);
    var v := Verdict(fs[i], threshold, SeenAfter(fs[..i], threshold));
    assert fs[..i + 1][..i] == fs[..i];
    assert listing[..i + 1][..i] == listing[..i];
    assert (os + [v])[..i] == os;
  }

  /** A name deleted by a pass was scanned and rejected there. */
  lemma {:induction false} RejectedNamesAreRejected(listing: seq<string>, os: seq<Outcome>, name: string)
    requires |listing| == |os|
    ensures name in RejectedNames(listing, os) <==>
            exists j :: 0 <= j < |os| && listing[j] == name && os[j].Removed()
  {
    if os != [] {
      var n := |os| - 1;
      RejectedNamesAreRejected(listing[..n], os[..n], name);
      if exists j :: 0 <= j < n && listing[..n][j] == name && os[..n][j].Removed() {
        var j :| 0 <= j < n && listing[..n][j] == name && os[..n][j].Removed();
        assert listing[j] == name && os[j].Removed();
      }
      if exists j :: 0 <= j < |os| && listing[j] == name && os[j].Removed() {
        var j :| 0 <= j < |os| && listing[j] == name && os[j].Removed();
        if j < n {
          assert listing[..n][j] == name && os[..n][j].Removed();
        }
      }
    }
  }

  /** Before entry i is visited, it has not been deleted. */
  lemma NotYetVisited(listing: seq<string>, os: seq<Outcome>, i: nat)
    requires i < |listing| && |os| == i
    requires forall a, b :: 0 <= a < b < |listing| ==> listing[a] != listing[b]
    ensures listing[i] !in RejectedNames(listing[..i], os)
  {
    RejectedNamesAreRejected(listing[..i], os, listing[i]);
  }

  // ---------------------------------------------------------------------
  // The folder after a pass
  // ---------------------------------------------------------------------

  /** What a pass over `files` in the order `listing` leaves on disk. */
  ghost function Survivors(files: map<string, FileFacts>, listing: seq<string>, threshold: real): map<string, FileFacts>
    requires Enumerates(files, listing)
  {
    files - RejectedNames(listing, Outcomes(FactsOf(files, listing), threshold))
  }

  /** Entry j is deleted iff it was rejected; in particular an entry that is
      not a regular file is never deleted. */
  lemma DeletedIffRejected(files: map<string, FileFacts>, listing: seq<string>, threshold: real, j: nat)
    requires Enumerates(files, listing) && j < |listing|
    ensures var os := Outcomes(FactsOf(files, listing), threshold);
            (listing[j] !in Survivors(files, listing, threshold) <==> os[j].Removed()) &&
            (!files[listing[j]].isFile ==> listing[j] in Survivors(files, listing, threshold))
  {
    var fs := FactsOf(files, listing);
    var os := Outcomes(fs, threshold);
    RejectedNamesAreRejected(listing, os, listing[j]);
    OutcomeOrder(fs, threshold, j);
  }

  /** A regular file still present after a pass was kept by it. */
  lemma SurvivorWasKept(files: map<string, FileFacts>, listing: seq<string>, threshold: real, name: string)
    returns (j: nat)
    requires Enumerates(files, listing)
    requires name in Survivors(files, listing, threshold) && files[name].isFile
    ensures j < |listing| && listing[j] == name
    ensures Outcomes(FactsOf(files, listing), threshold)[j] == Kept
  {
    var fs := FactsOf(files, listing);
    var os := Outcomes(fs, threshold);
    assert name in listing;
    j :| 0 <= j < |listing| && listing[j] == name;
    RejectedNamesAreRejected(listing, os, name);
    OutcomeOrder(fs, threshold, j);
  }

  /** After a pass the folder is curated: every regular file left is a sharp
      image, and no two of them share a hash. */
  lemma PassLeavesCurated(files: map<string, FileFacts>, listing: seq<string>, threshold: real)
    requires Enumerates(files, listing)
    ensures CuratedFolder(Survivors(files, listing, threshold), threshold)
  {
    var fs := FactsOf(files, listing);
    var left := Survivors(files, listing, threshold);
    KeptAreSharpAndDistinct(fs, threshold);
    forall name | name in left && left[name].isFile
      ensures Sharp(left[name], threshold)
    {
      var j := SurvivorWasKept(files, listing, threshold, name);
    }
    forall a, b | a in left && b in left && a != b && left[a].isFile && left[b].isFile
      ensures left[a].hash != left[b].hash
    {
      var ja := SurvivorWasKept(files, listing, threshold, a);
      var jb := SurvivorWasKept(files, listing, threshold, b);
      assert ja != jb;
    }
  }

  /** A pass over a curated folder, in any order, removes nothing. */
  lemma CuratedFolderUnchanged(files: map<string, FileFacts>, listing: seq<string>, threshold: real)
    requires Enumerates(files, listing) && CuratedFolder(files, threshold)
    ensures RemovedCount(Outcomes(FactsOf(files, listing), threshold)) == 0
    ensures Survivors(files, listing, threshold) == files
  {
    var fs := FactsOf(files, listing);
    var os := Outcomes(fs, threshold);
    CuratedInAnyOrder(files, listing, threshold);
    CuratedPassKeepsAll(fs, threshold);
    NoneRejected(listing, os);
    assert Survivors(files, listing, threshold) == files - {};
  }

  /** A curated folder read in any order is a curated scan. */
  lemma CuratedInAnyOrder(files: map<string, FileFacts>, listing: seq<string>, threshold: real)
    requires Enumerates(files, listing) && CuratedFolder(files, threshold)
    ensures Curated(FactsOf(files, listing), threshold)
  {
    var fs := FactsOf(files, listing);
    forall i, j | 0 <= i < j < |fs| && fs[i].isFile && fs[j].isFile
      ensures fs[i].hash != fs[j].hash
    {
      assert listing[i] != listing[j];
    }
  }

  lemma NoneRejected(listing: seq<string>, os: seq<Outcome>)
    requires |listing| == |os|
    requires forall j :: 0 <= j < |os| ==> !os[j].Removed()
    ensures RejectedNames(listing, os) == {}
  {
    forall name | name in RejectedNames(listing, os)
      ensures false
    {
      RejectedNamesAreRejected(listing, os, name);
    }
  }

  /** Idempotence: a second pass over what the first one left, in whatever
      order the folder is listed the second time, removes nothing. */
  lemma SecondPassRemovesNothing(files: map<string, FileFacts>, listing: seq<string>,
                                 relisting: seq<string>, threshold: real)
    requires Enumerates(files, listing)
    requires Enumerates(Survivors(files, listing, threshold), relisting)
    ensures var left := Survivors(files, listing, threshold);
            RemovedCount(Outcomes(FactsOf(left, relisting), threshold)) == 0 &&
            Survivors(left, relisting, threshold) == left
  {
    PassLeavesCurated(files, listing, threshold);
    CuratedFolderUnchanged(Survivors(files, listing, threshold), relisting, threshold);
  }

  /** The report's figures: removed never exceeds total, and the kept count
      `cleanup.py` prints is the number of kept files, never negative. */
  lemma ReportFigures(os: seq<Outcome>)
    ensures var r := Report(Total(os), RemovedCount(os));
            r.removed <= r.total && r.KeptCount() == CountOf(os, Kept)
  {
    Partition(os);
  }

  /** An empty folder is listed as nothing, and the pass reports 0 scanned,
      0 removed and 0 kept. */
  lemma EmptyFolderReport(listing: seq<string>, threshold: real)
    requires Enumerates(map[], listing)
    ensures var os := Outcomes(FactsOf(map[], listing), threshold);
            var r := Report(Total(os), RemovedCount(os));
            listing == [] && r == Report(0, 0) && r.KeptCount() == 0
  {
    assert forall i :: 0 <= i < |listing| ==> listing[i] in listing;
  }
}

/** The per-file decision of `clean_dataset`, and the outcomes of one pass.

    The image libraries are not modelled: what PIL's `verify`, OpenCV's
    Laplacian variance and `imagehash.average_hash` report about an entry is
    given as a `FileFacts` record. What is modelled exactly is the order of the
    checks, their short-circuiting, and the set of hashes seen so far. */
module Screening {

  /** An average hash: 8 x 8 bits. Two hashes match only when all 64 agree. */
  type Fingerprint = bv64

  /** What the libraries report about one directory entry. `sharpness` (the
      Laplacian variance) and `hash` are only consulted when the entry is a
      regular file that decodes. */
  datatype FileFacts = FileFacts(isFile: bool, decodes: bool, sharpness: real, hash: Fingerprint)

  /** The fate of one entry in a pass. */
  datatype Outcome = Skipped | Invalid | Blurry | Duplicate | Kept {
    /** Counted in `total_files`. */
    predicate Counted() {
      !Skipped?
    }
    /** Deleted and counted in `removed_files`. */
    predicate Removed() {
      Invalid? || Blurry? || Duplicate?
    }
  }

  /** One iteration of the loop: not a regular file, then not an image, then
      too blurry (strictly below the threshold), then a hash already seen. The
      first check that fires decides. */
  function Verdict(f: FileFacts, threshold: real, seen: set<Fingerprint>): Outcome {
    if !f.isFile then Skipped
    else if !f.decodes then Invalid
    else if f.sharpness < threshold then Blurry
    else if f.hash in seen then Duplicate
    else Kept
  }

  /** `seen_hashes` after the pass has visited `fs`; it starts empty. */
  function SeenAfter(fs: seq<FileFacts>, threshold: real): set<Fingerprint> {
    if fs == [] then {}
    else
      var n := |fs| - 1;
      var seen := SeenAfter(fs[..n], threshold);
      if Verdict(fs[n], threshold, seen) == Kept then seen + {fs[n].hash} else seen
  }

  /** The outcome of every entry of a pass, in scan order. */
  function Outcomes(fs: seq<FileFacts>, threshold: real): (os: seq<Outcome>)
    ensures |os| == |fs|
  {
    if fs == [] then []
    else
      var n := |fs| - 1;
      Outcomes(fs[..n], threshold) + [Verdict(fs[n], threshold, SeenAfter(fs[..n], threshold))]
  }

  /** `total_files` after the outcomes `os`. */
  function Total(os: seq<Outcome>): (t: nat)
    ensures t <= |os|
  {
    if os == [] then 0 else Total(os[..|os| - 1]) + if os[|os| - 1].Counted() then 1 else 0
  }

  /** `removed_files` after the outcomes `os`. */
  function RemovedCount(os: seq<Outcome>): (r: nat)
    ensures r <= Total(os)
  {
    if os == [] then 0 else RemovedCount(os[..|os| - 1]) + if os[|os| - 1].Removed() then 1 else 0
  }

  /** How many entries got outcome `o`. */
  function CountOf(os: seq<Outcome>, o: Outcome): nat {
    if os == [] then 0 else CountOf(os[..|os| - 1], o) + if os[|os| - 1] == o then 1 else 0
  }

  /** Passes the validity and the blur check. */
  predicate Sharp(f: FileFacts, threshold: real) {
    f.isFile && f.decodes && !(f.sharpness < threshold)
  }

  /** Reference definition of first-seen-wins, without any running state: a
      sharp image is a duplicate exactly when an earlier entry is a sharp image
      with the same hash. */
  ghost function FirstSeenOutcome(fs: seq<FileFacts>, threshold: real, j: nat): Outcome
    requires j < |fs|
  {
    if !fs[j].isFile then Skipped
    else if !fs[j].decodes then Invalid
    else if fs[j].sharpness < threshold then Blurry
    else if exists i :: 0 <= i < j && Sharp(fs[i], threshold) && fs[i].hash == fs[j].hash then Duplicate
    else Kept
  }

  /** An already curated scan: every regular file is a sharp image, and no two
      regular files share a hash. */
  ghost predicate Curated(fs: seq<FileFacts>, threshold: real) {
    (forall i :: 0 <= i < |fs| && fs[i].isFile ==> Sharp(fs[i], threshold)) &&
    (forall i, j :: 0 <= i < j < |fs| && fs[i].isFile && fs[j].isFile ==> fs[i].hash != fs[j].hash)
  }

  // ---------------------------------------------------------------------
  // Unfolding the pass
  // ---------------------------------------------------------------------

  lemma {:induction false} OutcomesPrefix(fs: seq<FileFacts>, threshold: real, k: nat)
    requires k <= |fs|
    ensures Outcomes(fs[..k], threshold) == Outcomes(fs, threshold)[..k]
    decreases |fs|
  {
    if k < |fs| {
      var n := |fs| - 1;
      assert fs[..n][..k] == fs[..k];
      OutcomesPrefix(fs[..n], threshold, k);
    } else {
      assert fs[..k] == fs;
    }
  }

  /** Entry j's outcome is the verdict against the hashes seen before it. */
  lemma OutcomeAt(fs: seq<FileFacts>, threshold: real, j: nat)
    requires j < |fs|
    ensures Outcomes(fs, threshold)[j] == Verdict(fs[j], threshold, SeenAfter(fs[..j], threshold))
  {
    OutcomesPrefix(fs, threshold, j + 1);
    assert fs[..j + 1][..j] == fs[..j];
  }

  // ---------------------------------------------------------------------
  // The hash set
  // ---------------------------------------------------------------------

  /** `seen_hashes` holds exactly the hashes of the sharp images visited:
      every sharp image either adds its hash or finds it already there. */
  lemma {:induction false} SeenIsSharpHashes(fs: seq<FileFacts>, threshold: real, h: Fingerprint)
    ensures h in SeenAfter(fs, threshold) <==>
            exists i :: 0 <= i < |fs| && Sharp(fs[i], threshold) && fs[i].hash == h
  {
    if fs != [] {
      var n := |fs| - 1;
      SeenIsSharpHashes(fs[..n], threshold, h);
      if h in SeenAfter(fs[..n], threshold) {
        var i :| 0 <= i < n && Sharp(fs[..n][i], threshold) && fs[..n][i].hash == h;
        assert fs[i] == fs[..n][i];
      }
      if exists i :: 0 <= i < |fs| && Sharp(fs[i], threshold) && fs[i].hash == h {
        var i :| 0 <= i < |fs| && Sharp(fs[i], threshold) && fs[i].hash == h;
        if i < n {
          assert fs[..n][i] == fs[i];
        }
      }
    }
  }

  /** `seen_hashes` is exactly the set of hashes of the kept files. */
  lemma SeenIsKeptHashes(fs: seq<FileFacts>, threshold: real, h: Fingerprint)
    ensures h in SeenAfter(fs, threshold) <==>
            exists i :: 0 <= i < |fs| && Outcomes(fs, threshold)[i] == Kept && fs[i].hash == h
  {
    var os := Outcomes(fs, threshold);
    SeenIsSharpHashes(fs, threshold, h);
    if h in SeenAfter(fs, threshold) {
      // the first sharp image with hash h is kept
      var i := FirstSharpWith(fs, threshold, h);
      OutcomeMatchesFirstSeen(fs, threshold, i);
    }
    if exists i :: 0 <= i < |fs| && os[i] == Kept && fs[i].hash == h {
      var i :| 0 <= i < |fs| && os[i] == Kept && fs[i].hash == h;
      OutcomeMatchesFirstSeen(fs, threshold, i);
    }
  }

  /** The earliest sharp image with hash h. */
  lemma FirstSharpWith(fs: seq<FileFacts>, threshold: real, h: Fingerprint) returns (i: nat)
    requires exists j :: 0 <= j < |fs| && Sharp(fs[j], threshold) && fs[j].hash == h
    ensures i < |fs| && Sharp(fs[i], threshold) && fs[i].hash == h
    ensures forall j :: 0 <= j < i ==> !(Sharp(fs[j], threshold) && fs[j].hash == h)
  {
    var j :| 0 <= j < |fs| && Sharp(fs[j], threshold) && fs[j].hash == h;
    i := 0;
    while !(Sharp(fs[i], threshold) && fs[i].hash == h)
      invariant i <= j
      invariant forall k :: 0 <= k < i ==> !(Sharp(fs[k], threshold) && fs[k].hash == h)
      decreases j - i
    {
      i := i + 1;
    }
  }

  /** The running pass agrees with the reference definition of first-seen-wins. */
  lemma OutcomeMatchesFirstSeen(fs: seq<FileFacts>, threshold: real, j: nat)
    requires j < |fs|
    ensures Outcomes(fs, threshold)[j] == FirstSeenOutcome(fs, threshold, j)
  {
    OutcomeAt(fs, threshold, j);
    SeenIsSharpHashes(fs[..j], threshold, fs[j].hash);
    if exists i :: 0 <= i < j && Sharp(fs[i], threshold) && fs[i].hash == fs[j].hash {
      var i :| 0 <= i < j && Sharp(fs[i], threshold) && fs[i].hash == fs[j].hash;
      assert fs[..j][i] == fs[i];
    }
    if exists i :: 0 <= i < j && Sharp(fs[..j][i], threshold) && fs[..j][i].hash == fs[j].hash {
      var i :| 0 <= i < j && Sharp(fs[..j][i], threshold) && fs[..j][i].hash == fs[j].hash;
      assert fs[..j][i] == fs[i];
    }
  }

  /** `seen_hashes` only grows during a pass. */
  lemma SeenGrows(fs: seq<FileFacts>, threshold: real, i: nat, j: nat)
    requires i <= j <= |fs|
    ensures SeenAfter(fs[..i], threshold) <= SeenAfter(fs[..j], threshold)
  {
    forall h | h in SeenAfter(fs[..i], threshold)
      ensures h in SeenAfter(fs[..j], threshold)
    {
      SeenIsSharpHashes(fs[..i], threshold, h);
      SeenIsSharpHashes(fs[..j], threshold, h);
      var k :| 0 <= k < i && Sharp(fs[..i][k], threshold) && fs[..i][k].hash == h;
      assert fs[..j][k] == fs[..i][k];
    }
  }

  /** Each kept file contributes a hash of its own: |seen_hashes| equals the
      number of kept files. */
  lemma {:induction false} SeenCountsKept(fs: seq<FileFacts>, threshold: real)
    ensures |SeenAfter(fs, threshold)| == CountOf(Outcomes(fs, threshold), Kept)
  {
    if fs != [] {
      var n := |fs| - 1;
      var os := Outcomes(fs, threshold);
      assert os[..n] == Outcomes(fs[..n], threshold);
      SeenCountsKept(fs[..n], threshold);
    }
  }

  // ---------------------------------------------------------------------
  // What the pass guarantees
  // ---------------------------------------------------------------------

  /** The checks short-circuit in order: a file is invalid iff it does not
      decode; blurry iff it decodes and its score is strictly below the
      threshold; a duplicate or kept only when it passed both checks. */
  lemma OutcomeOrder(fs: seq<FileFacts>, threshold: real, j: nat)
    requires j < |fs|
    ensures var o := Outcomes(fs, threshold)[j];
            (o == Skipped <==> !fs[j].isFile) &&
            (o == Invalid <==> fs[j].isFile && !fs[j].decodes) &&
            (o == Blurry <==> fs[j].isFile && fs[j].decodes && fs[j].sharpness < threshold) &&
            (o == Duplicate || o == Kept <==> Sharp(fs[j], threshold))
  {
    OutcomeAt(fs, threshold, j);
  }

  /** First-seen-wins: a sharp image is kept iff no earlier sharp image has
      its hash, and removed as a duplicate iff one has. */
  lemma FirstSeenWins(fs: seq<FileFacts>, threshold: real, j: nat)
    requires j < |fs| && Sharp(fs[j], threshold)
    ensures Outcomes(fs, threshold)[j] == Kept <==>
            forall i :: 0 <= i < j && Sharp(fs[i], threshold) ==> fs[i].hash != fs[j].hash
    ensures Outcomes(fs, threshold)[j] == Duplicate <==>
            exists i :: 0 <= i < j && Sharp(fs[i], threshold) && fs[i].hash == fs[j].hash
  {
    OutcomeMatchesFirstSeen(fs, threshold, j);
  }

  /** Kept files are sharp images with pairwise distinct hashes. */
  lemma KeptAreSharpAndDistinct(fs: seq<FileFacts>, threshold: real)
    ensures forall j :: 0 <= j < |fs| && Outcomes(fs, threshold)[j] == Kept ==>
              Sharp(fs[j], threshold)
    ensures forall i, j ::
              0 <= i < j < |fs| && Outcomes(fs, threshold)[i] == Kept && Outcomes(fs, threshold)[j] == Kept
              ==> fs[i].hash != fs[j].hash
  {
    forall i, j | 0 <= i < j < |fs| && Outcomes(fs, threshold)[i] == Kept &&
                  Outcomes(fs, threshold)[j] == Kept
      ensures fs[i].hash != fs[j].hash
    {
      OutcomeMatchesFirstSeen(fs, threshold, i);
      OutcomeMatchesFirstSeen(fs, threshold, j);
    }
    forall j | 0 <= j < |fs| && Outcomes(fs, threshold)[j] == Kept
      ensures Sharp(fs[j], threshold)
    {
      OutcomeAt(fs, threshold, j);
    }
  }

  /** Every counted entry has exactly one of the four outcomes, and the
      counters add up: total = invalid + blurry + duplicate + kept and
      removed = invalid + blurry + duplicate, so removed <= total. */
  lemma {:induction false} Partition(os: seq<Outcome>)
    ensures Total(os) == CountOf(os, Invalid) + CountOf(os, Blurry) + CountOf(os, Duplicate) + CountOf(os, Kept)
    ensures RemovedCount(os) == CountOf(os, Invalid) + CountOf(os, Blurry) + CountOf(os, Duplicate)
    ensures RemovedCount(os) <= Total(os)
  {
    if os != [] {
      Partition(os[..|os| - 1]);
    }
  }

  /** A pass over an already curated scan removes nothing: each regular file
      is kept and everything else skipped, in any scan order. */
  lemma CuratedPassKeepsAll(fs: seq<FileFacts>, threshold: real)
    requires Curated(fs, threshold)
    ensures forall j :: 0 <= j < |fs| ==>
              Outcomes(fs, threshold)[j] == if fs[j].isFile then Kept else Skipped
    ensures RemovedCount(Outcomes(fs, threshold)) == 0
  {
    var os := Outcomes(fs, threshold);
    forall j | 0 <= j < |fs|
      ensures os[j] == if fs[j].isFile then Kept else Skipped
    {
      OutcomeMatchesFirstSeen(fs, threshold, j);
    }
    NothingRemoved(os);
  }

  lemma {:induction false} NothingRemoved(os: seq<Outcome>)
    requires forall j :: 0 <= j < |os| ==> !os[j].Removed()
    ensures RemovedCount(os) == 0
  {
    if os != [] {
      NothingRemoved(os[..|os| - 1]);
    }
  }

  // ---------------------------------------------------------------------
  // Worked examples
  // ---------------------------------------------------------------------

  /** A corrupt file, a sharp image and a byte-identical copy of it: the
      corrupt file is removed as invalid, the copy as a duplicate, and the
      first sharp image alone is kept (3 scanned, 2 removed). */
  lemma CorruptSharpAndCopy(image: FileFacts, corrupt: FileFacts, threshold: real)
    requires Sharp(image, threshold) && corrupt.isFile && !corrupt.decodes
    ensures var os := Outcomes([corrupt, image, image], threshold);
            os == [Invalid, Kept, Duplicate] && Total(os) == 3 && RemovedCount(os) == 2 &&
            CountOf(os, Kept) == 1
  {
    var fs := [corrupt, image, image];
    assert fs[..2][..1] == [corrupt] && fs[..1] == [corrupt];
    assert [corrupt][..0] == [];
    OutcomeAt(fs, threshold, 0);
    OutcomeAt(fs, threshold, 1);
    OutcomeAt(fs, threshold, 2);
    var os := Outcomes(fs, threshold);
    assert os == [Invalid, Kept, Duplicate];
    var o1, o2 := [Invalid], [Invalid, Kept];
    assert os[..2] == o2 && o2[..1] == o1 && o1[..0] == [];
    assert Total(o1) == 1 && RemovedCount(o1) == 1 && CountOf(o1, Kept) == 0;
    assert Total(o2) == 2 && RemovedCount(o2) == 1 && CountOf(o2, Kept) == 1;
  }

  /** Blank frames (zero variance) below a positive threshold are all removed
      as blurry; a sharp image after them is kept. */
  lemma {:induction false} BlankFramesRemoved(blanks: seq<FileFacts>, image: FileFacts, threshold: real)
    requires forall i :: 0 <= i < |blanks| ==> blanks[i].isFile && blanks[i].decodes && blanks[i].sharpness == 0.0
    requires threshold > 0.0 && Sharp(image, threshold)
    ensures var os := Outcomes(blanks + [image], threshold);
            CountOf(os, Blurry) == |blanks| && CountOf(os, Kept) == 1 && RemovedCount(os) == |blanks|
  {
    BlanksAllBlurry(blanks, threshold);
    var fs := blanks + [image];
    assert fs[..|blanks|] == blanks;
    var os := Outcomes(fs, threshold);
    assert os[..|blanks|] == Outcomes(blanks, threshold);
    Partition(os);
    Partition(os[..|blanks|]);
  }

  lemma {:induction false} BlanksAllBlurry(blanks: seq<FileFacts>, threshold: real)
    requires forall i :: 0 <= i < |blanks| ==> blanks[i].isFile && blanks[i].decodes && blanks[i].sharpness == 0.0
    requires threshold > 0.0
    ensures SeenAfter(blanks, threshold) == {}
    ensures var os := Outcomes(blanks, threshold);
            CountOf(os, Blurry) == |blanks| && CountOf(os, Kept) == 0 &&
            CountOf(os, Invalid) == 0 && CountOf(os, Duplicate) == 0
  {
    if blanks != [] {
      var n := |blanks| - 1;
      BlanksAllBlurry(blanks[..n], threshold);
      assert Outcomes(blanks, threshold)[..n] == Outcomes(blanks[..n], threshold);
    }
  }
}

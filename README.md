# Frame-dataset curation, modelled in Dafny

The repository prepares a training set for YOLOv5 from a video. Three scripts
(`dynamic_object_detection.py`, `video_to_yolo.py`, `cleanup.py`) share two
pieces of logic, and this project models both:

- **Frame extraction** (`extract_frames`). The script reads the video frame
  by frame. It writes raw frame `count` iff `count % frame_skip == 0`. The
  file is named from a separate, gapless counter `saved`:
  `frame_{saved:05d}.jpg` in `dynamic_object_detection.py` and
  `frame_{saved}.jpg` in `video_to_yolo.py`.
- **Dataset cleanup** (`clean_dataset`). This is one pass over the folder's
  entries in listing order. Entries that are not regular files are skipped.
  Every regular file is counted. It is then deleted if it is not an image,
  or if it is blurry (Laplacian variance strictly below `blur_threshold`),
  or if its average hash was already seen in this pass. The first check that
  fires decides. A file that passes all three checks has its hash recorded.
  The three copies of `clean_dataset` have the same logic. Only the printed
  text differs, and `cleanup.py` also prints `total - removed` as the kept
  count.

Files:

- `naming.dfy`, module `FrameNames`: Python's `str(k)` and `05d` rendering,
  the two name styles, decoding a name back to its counter, and
  lexicographic order.
- `storage.dfy`, module `Storage`: the class `Folder<T>`. Its field `files`
  is a map from entry name to content. `Remove` models `os.remove` and
  `Write` models `cv2.imwrite`.
- `sampling.dfy`, module `FrameSampling`: the class `Capture<F>` models
  `cv2.VideoCapture` over a finite frame sequence. `ExtractFrames` is the
  `while True` read loop. It is proved against the specification functions
  `SavedCount` and `Written`, and lemmas give their meaning.
- `screening.dfy`, module `Screening`: the per-entry decision `Verdict`, and
  the outcomes, hash set and counters of a whole pass as functions of the
  scan. The lemmas cover short-circuit order, first-seen-wins deduplication,
  distinct kept hashes, the partition of the counters and fixed points.
- `cleanup.dfy`, module `Cleanup`: `CleanDataset`, which is the `for` loop
  deleting files from a `Folder` in place, with its loop body `Visit`. The
  lemmas about the folder left behind include idempotence under any second
  listing order.

The image libraries are not modelled. A `FileFacts` record holds what they
report about each entry: whether it is a regular file, whether PIL's
`verify` succeeds, the Laplacian variance (a `real`) and the 64-bit average
hash (a `bv64`). The `os.listdir` order is an input sequence `listing`,
which must list every entry of the folder exactly once.

At the edges the model follows the code:

- An unopenable video raises no error. Its first `read()` fails and nothing
  is written, so it is modelled as an empty frame sequence.
- `frame_skip` is not checked to be positive. With 0 and a non-empty video,
  the first `count % frame_skip` raises `ZeroDivisionError` before anything
  is written (`Extraction.DivisionByZero`). A negative `frame_skip` behaves
  like its absolute value, because Python's remainder of a non-negative
  `count` is zero exactly when the divisor divides it.
- Padded names sort in emission order only below 100000
  (`PaddedOrderBreaksAt100000`). Unpadded names do not sort in emission
  order from 10 on (`PlainNamesUnsorted`).
- Only `cleanup.py` reports a kept count.

## Model

| member | source | states |
|---|---|---|
| `FrameNames.Decimal` | video_to_yolo.py:66 | `str(k)` of a non-negative counter: its shortest decimal digits, at least one, all of them digits |
| `FrameNames.ZeroPad` | dynamic_object_detection.py:65 | the `05d` format: zeros on the left up to the width, and a longer rendering is not truncated |
| `FrameNames.Counter` | dynamic_object_detection.py:65 | the counter part of a name: `05d` for the padded style, `str` for the plain one |
| `FrameNames.FrameName` | video_to_yolo.py:66 | the output name is `frame_`, then the counter part, then `.jpg` |
| `FrameNames.DecimalRoundTrip` | video_to_yolo.py:66 | reading the digits of `str(k)` back gives `k` |
| `FrameNames.CounterDigits` | dynamic_object_detection.py:65 | the counter part of a name, padded or not, is all digits and reads back as the counter |
| `FrameNames.NameDecodes` | video_to_yolo.py:66 | the counter can be recovered from between `frame_` and `.jpg` of any name |
| `FrameNames.NamesInjective` | dynamic_object_detection.py:64-66 | two output names are equal only for equal counters, in both styles and for every counter value |
| `FrameNames.PaddedNamesSorted` | dynamic_object_detection.py:65 | for j < k < 100000 the padded name of j sorts strictly before that of k |
| `FrameNames.PaddedOrderBreaksAt100000` | dynamic_object_detection.py:65 | `frame_100000.jpg` sorts before `frame_99999.jpg`, because `05d` does not truncate |
| `FrameNames.PlainNamesUnsorted` | video_to_yolo.py:66 | `frame_10.jpg` sorts before `frame_2.jpg` |
| `FrameNames.LexFromValue` | dynamic_object_detection.py:65 | for digit strings of equal length, a smaller number sorts first |
| `Storage.Folder.Remove` | cleanup.py:28 | deleting an existing entry removes that entry and nothing else |
| `Storage.Folder.Write` | dynamic_object_detection.py:66 | writing a frame creates or overwrites exactly that entry |
| `FrameSampling.Capture.Read` | video_to_yolo.py:62-64 | a read returns the next frame and advances, or fails and stays put once the stream is exhausted |
| `FrameSampling.ExtractFrames` | dynamic_object_detection.py:55-70 | fails with a division by zero iff `frame_skip` is 0 and the video is non-empty, and then writes nothing; otherwise `saved` is `SavedCount` of the frame count and the folder gains exactly `Written` (existing files with other names stay) |
| `FrameSampling.Sampled` | video_to_yolo.py:65 | raw frame `count` is written iff `frame_skip` is non-zero and `count % frame_skip == 0` |
| `FrameSampling.SavedCount` | video_to_yolo.py:58-69 | `saved` after n reads: one more for each sampled raw frame among 0 to n - 1 |
| `FrameSampling.Written` | video_to_yolo.py:65-68 | the files written for a video prefix: each sampled frame under the name of the `saved` value at that point, later writes replacing earlier ones |
| `FrameSampling.SampledIffMultiple` | video_to_yolo.py:65 | raw frame n is written iff the stride divides n, also for a negative `frame_skip` |
| `FrameSampling.SavedCountIsCeiling` | dynamic_object_detection.py:58-68 | after n raw frames, `saved` is the least c with n <= c * stride |
| `FrameSampling.SavedCountFormula` | video_to_yolo.py:58-69 | after n raw frames, `saved` equals `(n + stride - 1) // stride`, that is ceil(n / stride) |
| `FrameSampling.SampledFrameIndex` | dynamic_object_detection.py:64-67 | a written raw frame n is output number n / stride |
| `FrameSampling.WrittenNames` | video_to_yolo.py:65-68 | the names written are exactly the names of counters 0 to saved - 1 |
| `FrameSampling.WrittenFrames` | dynamic_object_detection.py:64-67 | output k holds raw frame k * stride, and that frame exists |
| `FrameSampling.WrittenCount` | video_to_yolo.py:66-68 | exactly `saved` distinct files are written, so no output overwrites another |
| `FrameSampling.TenFramesStrideFive` | dynamic_object_detection.py:60-68 | ten frames with the default stride `DefaultFrameSkip` = 5 give `frame_00000.jpg` (raw frame 0) and `frame_00001.jpg` (raw frame 5) and nothing else |
| `Screening.Verdict` | dynamic_object_detection.py:23-50 | one iteration: skipped if not a regular file, else invalid if not an image, else blurry if the variance is strictly below the threshold, else duplicate if the hash was seen, else kept |
| `Screening.SeenAfter` | dynamic_object_detection.py:19-50 | `seen_hashes` after a scan prefix: it starts empty and gains the hash of each kept file |
| `Screening.Outcomes` | dynamic_object_detection.py:21-50 | the outcome of every entry, in scan order, one per entry, each decided against the hashes seen before it |
| `Screening.Total` | cleanup.py:24 | `total_files`: the number of regular files among the outcomes, never more than the number of entries |
| `Screening.RemovedCount` | cleanup.py:29-45 | `removed_files`: the number of invalid, blurry and duplicate outcomes, never more than `Total` |
| `Screening.OutcomeAt` | dynamic_object_detection.py:29-50 | the outcome of entry j is the verdict of the ordered checks against the hashes seen before j |
| `Screening.SeenIsSharpHashes` | dynamic_object_detection.py:44-50 | after a pass, `seen_hashes` holds exactly the hashes of the valid, non-blurry files visited |
| `Screening.SeenIsKeptHashes` | dynamic_object_detection.py:19-50 | `seen_hashes`, starting empty, ends as exactly the set of hashes of the kept files |
| `Screening.SeenGrows` | video_to_yolo.py:45-50 | `seen_hashes` after a prefix of the scan is a subset of it after any longer prefix |
| `Screening.SeenCountsKept` | cleanup.py:42-48 | the number of hashes in `seen_hashes` equals the number of kept files |
| `Screening.OutcomeOrder` | cleanup.py:21-39 | skipped iff not a regular file; invalid iff a file that does not decode; blurry iff it decodes and its score is strictly below the threshold; duplicate or kept iff it passed both checks |
| `Screening.FirstSeenWins` | video_to_yolo.py:44-50 | a valid, sharp file is kept iff no earlier valid, sharp file has its hash, and is removed as a duplicate iff one has |
| `Screening.OutcomeMatchesFirstSeen` | dynamic_object_detection.py:21-50 | the running pass agrees entry by entry with `FirstSeenOutcome`, a definition that uses no running state |
| `Screening.KeptAreSharpAndDistinct` | cleanup.py:35-48 | every kept file is a valid image with score >= threshold, and kept files have pairwise distinct hashes |
| `Screening.Partition` | cleanup.py:24-53 | total = invalid + blurry + duplicate + kept, removed = invalid + blurry + duplicate, so removed <= total |
| `Screening.CuratedPassKeepsAll` | video_to_yolo.py:29-50 | on a scan whose files are all valid, sharp and hash-distinct, every file is kept, every other entry is skipped and nothing is removed |
| `Screening.CorruptSharpAndCopy` | cleanup.py:18-48 | corrupt file, sharp image, copy of it: outcomes invalid, kept, duplicate; 3 scanned, 2 removed, 1 kept |
| `Screening.BlankFramesRemoved` | dynamic_object_detection.py:36-41 | zero-variance images under a positive threshold are all removed as blurry, and a sharp image after them is kept |
| `Cleanup.RejectedNames` | cleanup.py:28-44 | the names `os.remove` is called on: those of the entries whose outcome is a removal, all of them names from the listing |
| `Cleanup.Report.KeptCount` | cleanup.py:53 | the printed kept count `total - removed`: at most the scanned count, and non-negative whenever removed <= total |
| `Cleanup.CleanDataset` | dynamic_object_detection.py:16-52 | reports `Total` and `RemovedCount` of the outcomes of the scan, and leaves the folder minus exactly the rejected names |
| `Cleanup.Visit` | video_to_yolo.py:20-50 | one loop iteration: counters, hash set and folder change exactly as the verdict for that entry says |
| `Cleanup.RejectedNamesAreRejected` | cleanup.py:27-46 | a name is deleted iff some scanned entry with that name was rejected |
| `Cleanup.DeletedIffRejected` | cleanup.py:18-48 | an entry is gone after the pass iff it was rejected, and entries that are not regular files are never deleted |
| `Cleanup.SurvivorWasKept` | cleanup.py:42-48 | a regular file still present after the pass was kept by it |
| `Cleanup.PassLeavesCurated` | dynamic_object_detection.py:29-50 | after a pass every regular file left is a valid image with score >= threshold, and no two of them share a hash |
| `Cleanup.CuratedFolderUnchanged` | video_to_yolo.py:20-50 | a pass over a curated folder, in any listing order, removes nothing and leaves the folder as it was |
| `Cleanup.SecondPassRemovesNothing` | video_to_yolo.py:29-50 | a second pass over the survivors of a first pass, in any order, removes nothing |
| `Cleanup.ReportFigures` | cleanup.py:50-53 | removed <= total, and the printed kept count `total - removed` is the number of kept files |
| `Cleanup.EmptyFolderReport` | cleanup.py:13-53 | an empty folder reports 0 scanned, 0 removed and 0 kept |

## Left out

- PIL `Image.open().verify()`, `cv2.imread`, `cv2.Laplacian(...).var()` and `imagehash.average_hash` are foreign library calls. Their results are given per entry as `FileFacts`. The blur score is a `real`, so a NaN variance (for which `<` is false) is not modelled.
- The crash when PIL accepts a file that OpenCV cannot read (`imread` returns `None`) is library behaviour and is not modelled.
- Each entry's facts, `os.path.isfile` included, are taken once before the pass. The source asks `isfile` when it reaches the entry, so a symlink to a file the pass already deleted is seen as no file there. Symlinks between entries of the folder are not modelled.
- The `os.listdir` order depends on the platform. It is an input sequence, and the lemmas about a second pass hold for every order.
- `os.makedirs`, `cap.release()` and failures of `os.remove` (permission denied) or `cv2.imwrite` (which returns `False`) are not modelled. Deletion and writing always succeed on the `Folder` map.
- `FrameSampling.Capture` reads from a fixed frame sequence. Decoding errors in the middle of a video look like its end, as they do for `read()`.
- `images_to_video` (dynamic_object_detection.py:73-90) is left out. It is a sorted glob followed by video writing, which is I/O only.
- The `__main__` blocks are left out: the `input()` prompts, the `subprocess.run` call to YOLOv5's `detect.py`, and the console messages apart from the counters they report.

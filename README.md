# pair3d in Dafny

A model of the deterministic core of the pair3d tools. These Python scripts sort photos into stereo pairs and turn the pairs into stereograms and MPO files:

- `pair3d.v3.py` and `pair3d-web.0-1-1.py` sort a photo tree into `_pairs` and `_singles`;
- `stereogrampo.py` and `stereogrampo.mpo-test.py` pair photos and render stereograms from them;
- `create_mpo_gui.py` pairs photos by EXIF time and writes MPO files;
- the two MPOrama versions render every frame pair of an `.mpo` file in the selected formats.

The model has these parts:

- **Matching.**
  - `GreedyMatch` is the greedy first-fit matcher that the pair sorters and the stereogram tools share. It comes as a specification over list positions and as the source's nested loop over paths with its `used` set. The loop is proved to compute the specification.
  - `SortingPhase` instantiates the matcher. It covers the pair3d sorting phase, where the times are modification times and may be missing, and the per-folder loop of the stereogram tools.
  - `StrictAdjacency` is `find_image_pairs`: EXIF times, then a scan that accepts adjacent images 1 to 4 seconds apart.
  - `Positional` is the "single" and "lr_folders" pairings.
  - `Sorting` is Python's sort, as a stable insertion sort.
  - `Similarity` is the phash threshold test.
  - `ExifTime` parses EXIF timestamps.
  - `Thresholds` holds the two thresholds and their clamps.
- **Images.**
  - `Raster` holds RGB images as values, and canvases (`array2`) that the methods paste or copy channels into, pixel by pixel.
  - `Compositor` covers the anaglyph, parallel, crossview and left-right-left layouts, both as functions and as methods that fill a canvas.
- **MPO.** `MpEntry` is the 32-byte `MPF:MPEntry` value (the MP Entry field of CIPA DC-007, section 5.2.3.3, with the values the code writes), its hex form, and the left-then-right stream.
- **Paths and processing.**
  - `Paths` holds the move plan of the sorting phase, the `_pairs` and `_singles` destination rules, and `delete_if_empty`.
  - `MPOrama` holds the output naming and folder scheme, the per-format loop that stops at the first exception, and the progress counters of both versions.

Parts of the real environment become parameters of the model:

- a file's modification time (`mtime`, None where `os.path.getmtime` raises);
- its perceptual hash (`phash`, None where the image does not open);
- what exiftool reads from a file (`exif`);
- the frames an `.mpo` decodes to (`MpoFile.frames`);
- directory listings.

## Model

| member | source | states |
|---|---|---|
| GreedyMatch.FirstFit | pair3d.v3.py:527-536 | the partner found from position `j` is unused, fits, and no earlier position from `j` is both unused and fitting; None means no position after `j` is |
| GreedyMatch.MembersIn | pair3d.v3.py:533-535 | a position is in `used` exactly when it is a member of some pair made |
| GreedyMatch.GreedyCorrect | pair3d.v3.py:518-536 | each pair has its first member earlier, eligible and fitting its second; pairs come in scan order and share no image; each partner is the first fitting candidate not already used; an eligible leftover has no fitting later candidate except ones taken by earlier pairs |
| GreedyMatch.LeftoversDoNotFit | pair3d-web.0-1-1.py:240-256 | two images that both end up unpaired never fit each other when the earlier one is eligible |
| GreedyMatch.GreedyUsedCount | pair3d.v3.py:521-536 | the greedy result uses exactly two positions per pair |
| GreedyMatch.FindPartner | pair3d.v3.py:527-536 | the inner loop with its `break` finds a partner exactly when `FirstFit` does, and finds that one |
| GreedyMatch.RecordPair | pair3d.v3.py:532-535 | appending a pair adds its two paths to the pair list and to `used` and nothing else |
| GreedyMatch.ScanOne | pair3d.v3.py:521-536 | one turn of the outer loop keeps the pair list and `used` equal to those of the specification, one position further |
| GreedyMatch.MatchGreedy | stereogrampo.mpo-test.py:946-961 | the nested loop returns exactly the greedy pairs and `used` set of the specification |
| GreedyMatch.GreedyCounts | pair3d.v3.py:564-565 | `len(used) == 2 * len(pairs)`, and `2 * len(pairs)` is at most the number of images |
| GreedyMatch.GreedyPairFits | pair3d-web.0-1-1.py:245-253 | every returned pair `(a, b)` has `a` before `b` in the list, `a` eligible, and `a` fitting `b` |
| GreedyMatch.GreedyUsedMember | pair3d-web.0-1-1.py:252-254 | a path is in `used` exactly when it is a member of a returned pair |
| SortingPhase.WithinTimeSymmetric | pair3d.v3.py:531 | the time test `abs(t2 - t1) <= T` does not depend on the order of the two images |
| SortingPhase.SortImages | pair3d.v3.py:518-536 | the sorting phase sorts by `time or datetime.min` and returns the greedy pairs and `used` set of the sorted list |
| SortingPhase.PhasePairFits | pair3d.v3.py:524-532 | both images of every pair have a time; they are within the threshold, similar, and the second is not earlier; both come from the input |
| SortingPhase.UntimedNeverPaired | pair3d.v3.py:518-531 | an image with no time is never a member of a pair, neither first nor second |
| SortingPhase.ReportedCounts | pair3d-web.0-1-1.py:281-282 | the singles figure `n - len(used)` equals `n - 2 * num_pairs` and is never negative |
| SortingPhase.PairPerFolder | stereogrampo.py:762-780 | the per-folder loop returns, folder after folder, the greedy pairs of each folder sorted by time, with a fresh `used` for each |
| SortingPhase.NoPairSpansFolders | stereogrampo.mpo-test.py:944-961 | both images of every pair come from one folder; they are within the threshold and similar, and the second is no earlier than the first because the folder is sorted by time |
| Similarity.Hamming | stereogrampo.mpo-test.py:205-206 | the hash distance is at most the hash length |
| Similarity.HammingSelf | stereogrampo.py:190 | a hash is at distance 0 from itself |
| Similarity.HammingSymmetric | stereogrampo.py:189-190 | the distance does not depend on the order of the hashes |
| Similarity.HammingZeroIffEqual | pair3d.v3.py:158 | the distance is zero exactly for equal hashes |
| Similarity.HammingTriangle | pair3d-web.0-1-1.py:114-122 | the distance satisfies the triangle inequality |
| Similarity.SimilarSymmetric | stereogrampo.mpo-test.py:201-209 | `is_similar_image(a, b) == is_similar_image(b, a)`, including when an image fails to open |
| Similarity.SameHashSimilar | stereogrampo.py:609 | two opened images with equal hashes are similar exactly when the threshold is at least 1, which the clamp guarantees |
| Similarity.SimilarMonotone | pair3d.v3.py:150-160 | raising the hash threshold never loses a similar pair |
| Thresholds.ClampTime | pair3d-web.0-1-1.py:165 | `max(0.01, t)`: at least 0.01, `t` itself from 0.01 up |
| Thresholds.ClampHash | pair3d-web.0-1-1.py:166 | `max(1, h)`: at least 1, `h` itself from 1 up |
| Thresholds.Settings.constructor | pair3d.v3.py:49-50 | the thresholds start at 2 seconds and 10 |
| Thresholds.Settings.UpdateThresholds | stereogrampo.py:603-611 | each field that parses is clamped and taken; a field that does not parse keeps its previous value; both stay at or above their clamps |
| Thresholds.Settings.UploadThresholds | pair3d-web.0-1-1.py:163-168 | the call succeeds exactly when both fields parse; a bad time field changes nothing; a bad hash field keeps the new time threshold |
| Sorting.SortBy | pair3d.v3.py:518 | the sort returns a permutation of its input |
| Sorting.SortBySorted | pair3d-web.0-1-1.py:238 | for a total preorder the sort returns a sorted permutation |
| Sorting.StrLeIsTotalPreorder | stereogrampo.py:758 | Python's ordering of `str` is total and transitive |
| Sorting.StrLeAntisymmetricAt | stereogrampo.mpo-test.py:931-932 | two strings that are each `<=` the other are equal |
| Sorting.SortByKeyNondecreasing | stereogrampo.py:764 | after `files.sort(key=...)` the keys do not decrease |
| Sorting.SortByDistinct | stereogrampo.mpo-test.py:945 | sorting a list of distinct paths keeps them distinct |
| StrictAdjacency.CollectedMember | create_mpo_gui.py:207-222 | a file is in `file_info` with time `t` exactly when it is one of the files and its reading gives `t` |
| StrictAdjacency.CollectShots | create_mpo_gui.py:209-222 | the collecting loop appends, in file order, the files whose timestamp reads |
| StrictAdjacency.ScanFrom | create_mpo_gui.py:228-250 | every accepted position has a successor, passes the 1-4 second and nothing-between test, and is at least two after the previous one |
| StrictAdjacency.NoIntervening | create_mpo_gui.py:236-241 | the inner loop with its `break` answers True exactly when no timestamp differs from both and lies strictly between them |
| StrictAdjacency.ScanPairs | create_mpo_gui.py:229-250 | the `while` loop that steps by 2 on accept and by 1 on reject returns the pairs at the positions of the scan specification |
| StrictAdjacency.Named | create_mpo_gui.py:243 | the pairs appended are the names of each accepted entry and the one after it, in order |
| StrictAdjacency.FindImagePairs | create_mpo_gui.py:198-251 | `find_image_pairs` sorts by name, collects, sorts by time and scans |
| StrictAdjacency.SortedShotsSorted | create_mpo_gui.py:227 | `file_info` is in non-decreasing time order before the scan |
| StrictAdjacency.SortedAdjacentNoneBetween | create_mpo_gui.py:237-241 | on sorted input no timestamp lies strictly between two adjacent ones |
| StrictAdjacency.InterveningNeverRejects | create_mpo_gui.py:227-245 | on sorted input the scan equals the scan that looks at the 1-4 second rule alone |
| StrictAdjacency.AcceptedGap | create_mpo_gui.py:232-234 | the right member of every pair is 1 to 4 seconds after the left |
| StrictAdjacency.ScanDisjoint | create_mpo_gui.py:242-247 | pairs are index-adjacent and no entry is in two pairs |
| StrictAdjacency.ScanTimeOrdered | create_mpo_gui.py:243 | on sorted input every member of an earlier pair is no later than every member of a later pair |
| StrictAdjacency.ScanCovers | create_mpo_gui.py:244-250 | an adjacent candidate that passes the test starts a pair unless its left member already ended the previous pair, so a rejected candidate's right member is tried next as a left member |
| StrictAdjacency.FoundPairsTimed | create_mpo_gui.py:211-234 | both files of a returned pair had a readable timestamp, the right one 1 to 4 seconds after the left |
| ExifTime.ToSecondsMonotone | create_mpo_gui.py:227 | counting seconds since `datetime.min` keeps calendar order, so sorting by seconds sorts by timestamp |
| ExifTime.ToSecondsInjective | create_mpo_gui.py:238 | two valid readings with the same seconds are the same reading |
| ExifTime.Parse | create_mpo_gui.py:216 | a string that parses gives a valid date and time whose written form is the string itself |
| ExifTime.ParseFormat | create_mpo_gui.py:214-217 | every valid date and time written in the format parses back to itself |
| ExifTime.Format | create_mpo_gui.py:216 | every written timestamp is nineteen characters long |
| ExifTime.TimestampTag | create_mpo_gui.py:213 | DateTimeDigitized is used when present and non-empty, otherwise DateTimeOriginal |
| ExifTime.CaptureSeconds | create_mpo_gui.py:211-222 | a file gets a time exactly when its EXIF reads, a tag is chosen and the value parses; the time is not negative |
| Positional.ConsecutivePairs | stereogrampo.py:760 | `n // 2` pairs, pair `q` being `(files[2q], files[2q+1])` |
| Positional.FlattenConsecutive | stereogrampo.mpo-test.py:942 | the pairs, member after member, are the files in order without an odd last one |
| Positional.ConsecutiveDisjoint | stereogrampo.py:758-760 | with distinct names no file is in two pairs |
| Positional.ConsecutiveCovers | stereogrampo.mpo-test.py:940-942 | every file but an odd last one is in the pair at half its position |
| Positional.SinglePairsOrdered | stereogrampo.mpo-test.py:941-942 | each pair of the "single" structure is in name order |
| Positional.LeftRightPairs | stereogrampo.py:752 | `min(len(left), len(right))` pairs, pair `q` being `(left[q], right[q])` |
| Positional.UnzipLeft | stereogrampo.mpo-test.py:933 | the first members of the pairs are the left list cut to the shorter length |
| Positional.UnzipRight | stereogrampo.py:748-752 | the second members of the pairs are the right list cut to the shorter length |
| Paths.PlanMoves | pair3d.v3.py:539-562 | the two move loops make the pair moves, then the single moves |
| Paths.PairMovesLength | pair3d-web.0-1-1.py:259-267 | `n` pairs make `2n` moves |
| Paths.PairMovesShape | pair3d.v3.py:540-548 | pair `i` makes moves `2i` and `2i+1`, each member into the `_pairs` folder of its own directory |
| Paths.SingleMovesMember | pair3d.v3.py:551-562 | a file moves to `_singles` exactly when it is unused and not already in a `_singles` folder, keeping its name |
| Paths.IntoShape | pair3d-web.0-1-1.py:261-265 | a moved file keeps its name and lands in the named sub-folder of its own directory |
| Paths.MoveRootsSiblings | pair3d.v3.py:583-585 | `_x2_<base>` and `<base>_singles` are siblings of the source folder, and all three differ |
| Paths.PairsDestRootLevel | pair3d.v3.py:611 | a `_pairs` folder directly under the root goes to `<dst_root>/<base>_pairs` |
| Paths.PairsDestNested | pair3d.v3.py:606-611 | a nested `_pairs` folder goes to `<dst_root>/<parent_rel>/<parent_name>_pairs` |
| Paths.PairsDestRootBranchAgrees | pair3d-web.0-1-1.py:317-318 | at the root level the general branch would name the same folder as the special one |
| Paths.WebPairsDestModes | pair3d-web.0-1-1.py:316-318 | with `move_destination == 'root'` every `_pairs` folder goes to `<dst_root>/<base>_pairs`; otherwise the rule of `pair3d.v3.py` applies |
| Paths.SinglesDestIsParent | pair3d.v3.py:619 | a `_singles` folder's contents go to its parent, which is the source root at the top level |
| Paths.DeleteIfEmptyRemoves | pair3d.v3.py:166-172 | a folder is removed exactly when it is a directory whose listing is empty or only `.picasa.ini` |
| Raster.NewCanvas | stereogrampo.mpo-test.py:297 | a fresh canvas shows the black image of the given size |
| Raster.PasteInto | stereogrampo.mpo-test.py:299-303 | after the pixel loop the canvas shows the pasted image inside the clipped rectangle and its old contents elsewhere |
| Raster.CopyChannel | stereogrampo.mpo-test.py:277-279 | after the pixel loop one channel of every pixel comes from the broadcast source and the other two are kept |
| Compositor.Anaglyph | stereogrampo.mpo-test.py:273-283 | the anaglyph exists exactly when the right image broadcasts onto the left; it has the left's size, and each pixel is (left red, right green, right blue) |
| Compositor.Parallel | MPOrama.0-5-4.exif+xmp.not.py:415-419 | a 2W×H image with left at x < W and right from x = W |
| Compositor.Crossview | MPOrama.0-5-4.exif+xmp.not.py:399-403 | a 2W×H image with right at x < W and left from x = W |
| Compositor.Lrl | MPOrama.0-5-4.exif+xmp.not.py:431-436 | a 3W×H image with left, right, left at x offsets 0, W, 2W |
| Compositor.LrlPanels | MPOrama.0-4-1.no-meta.py:339-344 | each of the three pastes shows in its own panel only |
| Compositor.CrossviewSwapsPanels | stereogrampo.mpo-test.py:298-303 | for images of one size, crossview of (l, r) is parallel of (r, l), so `reverse` only swaps the panels |
| Compositor.LrlOuterPanelsAgree | stereogrampo.py:313-315 | the two outer panels of a left-right-left image are the same |
| Compositor.AnaglyphOfSame | stereogrampo.py:273-276 | the anaglyph of an image with itself is the image |
| Compositor.CreateAnaglyph | stereogrampo.py:271-280 | the canvas method fails exactly when the function does, and otherwise fills a fresh canvas with the anaglyph |
| Compositor.CreateSideBySide | stereogrampo.mpo-test.py:295-304 | the canvas method fills a fresh canvas with the side-by-side image, reversed or not |
| Compositor.CreateLrl | stereogrampo.py:310-316 | the canvas method fills a fresh canvas with the left-right-left image |
| MpEntry.Be32Decodes | create_mpo_gui.py:122 | the four bytes of `to_bytes(4, 'big')` read back as the number, wherever they sit |
| MpEntry.Be32 | create_mpo_gui.py:122 | `to_bytes(4, 'big')` gives four bytes |
| MpEntry.EncodeEntry | stereogrampo.mpo-test.py:382-385 | one MP entry is sixteen bytes |
| MpEntry.MPEntry | create_mpo_gui.py:118-129 | the value exists exactly when both sizes are below 2^32, and it is 32 bytes long |
| MpEntry.EncodeEntryDecodes | stereogrampo.mpo-test.py:382-385 | a 16-byte entry reads back as its four words, wherever it sits |
| MpEntry.MPEntryRoundTrip | create_mpo_gui.py:119-129 | decoding gives back both sizes, offsets 0 and the left size, zero dependencies, and attributes 0 and 0x00020000 |
| MpEntry.MPEntryBytes | stereogrampo.mpo-test.py:380-391 | the bytes as written: both zero words of the first entry, `00 02 00 00`, the left size twice, the right size once, a zero last word |
| MpEntry.Hex | stereogrampo.mpo-test.py:426 | the hex text has two digits per byte |
| MpEntry.HexRoundTrip | create_mpo_gui.py:165 | the hex text reads back as the bytes |
| MpEntry.OutputFile.constructor | create_mpo_gui.py:137 | a file opened with `'wb'` starts empty |
| MpEntry.OutputFile.Write | create_mpo_gui.py:139-141 | a write appends its data |
| MpEntry.WriteStream | stereogrampo.mpo-test.py:398-402 | the stream is the left file followed by the right file |
| MpEntry.Concat | create_mpo_gui.py:137-141 | the stream is `L + R` bytes long |
| MpEntry.SplitConcat | create_mpo_gui.py:138-141 | cutting the stream at the left size gives back both files |
| MpEntry.ConcatSplit | stereogrampo.mpo-test.py:398-402 | a stream cut at any point within it joins back to itself |
| MpEntry.EntriesLocateImages | create_mpo_gui.py:104-129 | each entry's offset and size pick its own image out of the stream, the right entry ending at the end of the stream |
| MPOrama.FilenameKeptIff | MPOrama.0-5-4.exif+xmp.not.py:548-551 | the source name is kept exactly when both "separate" and "no filename change" are set |
| MPOrama.FormatsNeverCollide | MPOrama.0-4-1.no-meta.py:394-400 | two different formats of one file never share an output path |
| MPOrama.RenderOutcome | MPOrama.0-5-4.exif+xmp.not.py:557-568 | only the anaglyph can fail, exactly when the right frame does not broadcast; left and right save frame 0 and frame 1 unchanged |
| MPOrama.RenderedShape | MPOrama.0-5-4.exif+xmp.not.py:544-583 | what a file saves is the longest run of selected formats that render, each under its own path; the format after the run is the one that raised |
| MPOrama.SelectMember | MPOrama.0-5-4.exif+xmp.not.py:544-546 | every selected format is visited and no other |
| MPOrama.SelectCount | MPOrama.0-5-4.exif+xmp.not.py:620 | the formats visited are as many as `num_formats` |
| MPOrama.FormatsAnaglyphFirst | MPOrama.0-4-1.no-meta.py:56-63 | the formats dictionary visits the anaglyph first |
| MPOrama.StemDropsExtension | MPOrama.0-5-4.exif+xmp.not.py:517 | `splitext` drops the extension of `name.ext` |
| MPOrama.CompletesIff | MPOrama.0-4-1.no-meta.py:403-414 | a two-frame file goes through every selected format exactly when each of them renders |
| MPOrama.AllOrNothing | MPOrama.0-5-4.exif+xmp.not.py:509-583 | a file saves all its selected formats or none, because the only format that can fail comes first |
| MPOrama.MpoFiles | MPOrama.0-5-4.exif+xmp.not.py:614-618 | exactly the files ending in `.mpo`, in any case, are kept |
| MPOrama.OutputCount | MPOrama.0-5-4.exif+xmp.not.py:573 | a run saves `num_formats` outputs per completed file and nothing for the rest |
| MPOrama.ReachesTotalIff | MPOrama.0-5-4.exif+xmp.not.py:620-621 | the counter never passes `total_files`, and reaches it exactly when every file completes or nothing is selected |
| MPOrama.CountAgainstTotal | MPOrama.0-5-4.exif+xmp.not.py:620-621 | `completed * num_formats` never passes `total_files * num_formats`, and reaches it exactly when no format is chosen or every file completes |
| MPOrama.StartError | MPOrama.0-5-4.exif+xmp.not.py:589-596 | processing starts exactly when both folders are chosen and at least one format is selected |
| MPOrama.NoneChosen | MPOrama.0-4-1.no-meta.py:435 | `not any(...)` holds exactly when no format is selected |
| MPOrama.Session.constructor | MPOrama.0-5-4.exif+xmp.not.py:612 | the counter starts at 0 with nothing saved |
| MPOrama.Session.SaveFormats | MPOrama.0-5-4.exif+xmp.not.py:544-578 | the format loop saves the outputs of the specification, advances the counter per save in version 0.5.4, and completes exactly when every selected format renders |
| MPOrama.Session.ProcessMpoPerFormat | MPOrama.0-5-4.exif+xmp.not.py:499-583 | `process_mpo` saves the file's outputs and counts each one |
| MPOrama.Session.ProcessMpoPerFile | MPOrama.0-4-1.no-meta.py:346-425 | `process_mpo` saves the file's outputs and counts the file once, only when it completes |
| MPOrama.Session.ProcessAllPerFormat | MPOrama.0-5-4.exif+xmp.not.py:625-633 | the file loop saves the outputs of every file into its target folder, and the counter equals the number saved |
| MPOrama.Session.ProcessAllPerFile | MPOrama.0-4-1.no-meta.py:455-463 | the file loop saves the outputs of every file, and the counter equals the number of completed files |
| MPOrama.Session.ProcessNextPerFile | MPOrama.0-4-1.no-meta.py:458-463 | one turn of that loop appends the next file's outputs and counts it when it completes |
| MPOrama.TaskPerFormat | MPOrama.0-5-4.exif+xmp.not.py:609-633 | `task` lists the `.mpo` files, sets `total_files` to files × formats, and processes them over the formats dictionary; the counter never passes `total_files` and reaches it exactly when every file completes or no format is selected |
| MPOrama.TaskPerFile | MPOrama.0-4-1.no-meta.py:440-463 | `task` lists the `.mpo` files, sets `total_files` to their number, and processes them over the formats dictionary; the counter is the number of completed files and never passes `total_files` |

## Left out

- User interfaces, threads and pausing: the Tkinter and Flask layers, SocketIO, message boxes, `pause_event`, and the progress percentage and ETA arithmetic, which uses floating point.
- File-system and process I/O: walking, listing, copying, moving, `makedirs`, `rmtree`, logs, settings files, ZIP upload, and the exiftool and subprocess calls. Moves are recorded as a plan; saves are recorded as a list of (path, image) pairs.
- Feature alignment (`align_images`): OpenCV ORB matching and homography on floating point. This includes its "fewer than 10 matches gives None" rule.
- Perceptual hashing: `imagehash.phash` is a parameter that gives a bit sequence, or None when the image does not open.
- SortingPhase.WithinTime: modification times are whole microseconds and the model compares the exact gap with a real threshold. Python compares `total_seconds()`, a float rounded from the microseconds, with a float threshold. The two answers can differ when the gap is within rounding distance of the threshold. Floating-point NaN and infinity in the thresholds are not modelled either.
- Missing times in the stereogram tools: `files.sort(key=get_image_timestamp)` raises once a time is None. The model takes those times as always present.
- `Image.open` failures: they are modelled as a file with fewer than two frames. Image modes other than RGB (and the anaglyph of a non-RGB image in `stereogrampo*.py`) are not modelled.
- `strptime` leniency: Python accepts one-digit fields and extra whitespace in "%Y:%m:%d %H:%M:%S". The model accepts only the padded nineteen-character form, so it rejects more strings than the source does.
- The exiftool steps of `create_mpo`:
  - the timestamp rewrite of the temporary copies (`create_mpo_gui.py:147-157`) happens after the stream is built and changes nothing modelled;
  - the final `-o` rewrite changes the first JPEG after its size was measured, so the MP Entry is stated against the plain concatenation only.
- The fixed MakerNote blob of `create_mpo` in `stereogrampo.py` (lines 342-354): it is a constant with zero sizes and offsets, not an encoder.
- Metadata copying in MPOrama 0.5.4 (`get_metadata`, `save_image_with_metadata`) and its ExifTool start-up guard: these are I/O. A failed save is not modelled.
- Unicode case folding: `f.lower().endswith(".mpo")` is modelled with ASCII case only.
- `mov3dpairs.NOT.py` and `setup.py` are not part of this model.
- Sorting.SortBy: its stability (equal keys keep their input order) is built into the definition but not stated as a lemma. Only "sorted permutation" is proved.

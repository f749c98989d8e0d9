# timelapse-compressor, modelled in Dafny

timelapse-compressor shrinks a directory of same-size timelapse frames (PNG screenshots). It
stores the first frame (the *anchor*) as it is. Every later frame becomes a *delta*: the previous
frame minus this one, pixel by pixel, using Java `int` subtraction on the packed ARGB value.
Decompression runs the chain forwards: each frame is the one before it minus its stored delta.
A comparison pass then checks the decompressed frames against the originals. Frames are ordered
by the first run of decimal digits in their file names. The encoder splits the frame pairs among
worker threads in contiguous ranges.

The model covers all four operations of `src/main/java/Main.java` and the pipeline `main` chains
them into:

- `sortedPNGImageList` → module `Catalog`
- `compress` → `Encoder` (with the worker split in `Partition`)
- `decompress` → `Decoder`
- `compare` → `Verifier`
- `main` → `Pipeline`

Pixels, images, files and errors live in `Frames`.

How things are represented:

- **Pixel.** A Java `int`: an integer in [-2^31, 2^31). Subtraction wraps explicitly modulo 2^32 (`Frames.Sub`).
- **Image.** A value holding width, height and rows.
- **Rasters.** The rasters that `compress` and `decompress` fill pixel by pixel are `array2<Pixel>` values, cleared to zero and filled by nested loops.
- **Directories.** A directory listing is a sequence of `ImageFile`s (name and decoded image), in whatever order the file system lists it.
- **Output.** Each operation returns the files it writes, in the order it writes them.
- **Failures.** Java exceptions the core can raise become `Result` errors: the comparator's "no number match", and `get` past the end of a list (`IndexOutOfBounds(i)`).

What is proved:

- **Round trip.** For any non-empty run of same-size frames, decompressing what compression writes gives back every frame bit for bit, under its own name. This holds whatever the pixel values, including every case where the subtraction wraps.
- **End to end.** The whole `compress` → `decompress` → `compare` pipeline reports no difference and no failure. This holds for any frame numbers when each output directory is listed in the order its files were written (`Pipeline.CompressDecompressCompare`). It holds for any listing order of the two output directories when no two frames share a number (`Pipeline.CompressDecompressCompareAnyOrder`).
- **Worker split.** The workers' ranges cover every pair index 0 .. size−2 exactly once. The `chunk < 1` fallback can never fire.
- **Sorting.** `sortedPNGImageList` returns a stable, key-ascending permutation of the `.png` files. It is determined uniquely by that property. It fails exactly when there are at least two `.png` names and one of them has no number.
- **Comparison.** `compare` reports every differing pixel and nothing else, once each, in scan order. It never stops early.

Details of the code that the model keeps:

- The delta is *previous − current* (Main.java:96) and reconstruction is *current − delta* (Main.java:159). The two match, so the round trip holds (`Decoder.RoundTrip`).
- The worker count is `min(processors, size)` (Main.java:56), where `size` counts frames, not frame pairs.
- The last worker's range runs to `size − 2` (Main.java:76-78). No pair is left unassigned and none is assigned twice: `Partition.ExactCover`.
- An empty frame list is not a catalog error. `sortedPNGImageList` returns an empty list, and the failure comes from the `get(0)` that follows (Main.java:53, 140, 172). The model gives `IndexOutOfBounds(0)`.
- No dimension check exists in the code. Same-size frames are a precondition here (see Left out).
- The sort fails only when the comparator runs. The JDK's sort calls it only for two or more elements, so a single `.png` with no number sorts without error.
- A name fails to match if it contains a line terminator (`\n`, `\r`, U+0085, U+2028, U+2029). Neither `.*?` nor `.*` crosses one without the DOTALL flag. `\d` matches ASCII digits only.

## Model

| member | source | states |
|---|---|---|
| Frames.Wrap | src/main/java/Main.java:96 | the Java `int` an exact difference wraps to is congruent to it modulo 2^32 and equals it when it is in range |
| Frames.Sub | src/main/java/Main.java:96 | `int` subtraction is exact modulo 2^32 and yields 0 exactly when the two pixels are equal |
| Frames.SubInverse | src/main/java/Main.java:159 | subtracting the difference `a - b` from `a` gives back `b` for all `int`s, wrap-around included |
| Frames.Delta | src/main/java/Main.java:88-101 | the delta raster has the frames' size, and a delta pixel is 0 exactly where the two frames agree (so the transparent clear of lines 89-91 stays wherever nothing changed) |
| Frames.Undelta | src/main/java/Main.java:153-161 | the reconstructed raster has the size of the current frame |
| Frames.UndeltaInvertsDelta | src/main/java/Main.java:159 | reconstructing a delta against the frame it was taken from gives back the next frame exactly |
| Frames.Snapshot | src/main/java/Main.java:102-103 | an assumption of the model, not a property proved about the code: PNG is lossless, so the raster written and read back is taken to hold exactly the pixels set in the array, at its width and height |
| Partition.Start | src/main/java/Main.java:74 | defines worker t's first pair index `t * chunk`; its meaning is given by `Partition.RangeFacts`, `Partition.EndBeforeStart` and `Partition.ExactCover` |
| Partition.End | src/main/java/Main.java:75-78 | defines worker t's last pair index, `size - 2` for the last worker; its meaning is given by `Partition.RangeFacts`, `Partition.AllDone` and `Partition.ExactCover` |
| Partition.Owns | src/main/java/Main.java:74-81 | defines "worker t runs pair i" as the loop bounds of lines 74-81; its meaning is given by `Partition.OwnerOwns`, `Partition.OwnersDisjoint` and `Partition.ExactCover` |
| Partition.Done | src/main/java/Main.java:74-81 | defines the pairs finished once the earlier workers have run; its meaning is given by `Partition.RangeFacts` and `Partition.AllDone` |
| Partition.Owner | src/main/java/Main.java:74-78 | names a worker below the worker count for every pair index; `Partition.OwnerOwns` proves that worker's range holds the index |
| Partition.MakePlan | src/main/java/Main.java:56-61 | the plan has between 1 and `min(procs, size)` workers and a chunk of at least 1 |
| Partition.FallbackUnreachable | src/main/java/Main.java:58-61 | with at least one frame and one processor the `chunk < 1` branch never runs: the plan is `min(procs, size)` workers with chunk `size / min(procs, size)` |
| Partition.LastStartInRange | src/main/java/Main.java:74-78 | the last worker starts at most one past the last pair index |
| Partition.RangeFacts | src/main/java/Main.java:68-81 | each worker's range starts where the previous one ended, runs forwards or is empty, and stays within 0 .. size-2 |
| Partition.AllDone | src/main/java/Main.java:76-78 | after the last worker, exactly size-1 pairs are done |
| Partition.OwnedIndexInRange | src/main/java/Main.java:81-83 | every index a worker touches names two existing frames, `i` and `i+1` |
| Partition.OwnerOwns | src/main/java/Main.java:74-78 | every pair index in 0 .. size-2 lies in the range of the worker `Owner` names |
| Partition.EndBeforeStart | src/main/java/Main.java:74-78 | an earlier worker's range ends before any later worker's range starts |
| Partition.OwnersDisjoint | src/main/java/Main.java:68-81 | no pair index belongs to two workers |
| Partition.ExactCover | src/main/java/Main.java:56-81 | the workers' ranges are an exact cover of the pair indices 0 .. size-2 and touch no other index |
| Partition.FourFramesFourWorkers | src/main/java/Main.java:56-78 | four frames on four processors give four workers of chunk 1, the last one with the empty range [3, 2] |
| Catalog.IsPng | src/main/java/Main.java:122 | defines `name.endsWith(".png")`, case-sensitive; `Catalog.PngFiles` and `Catalog.SortedPngListSpec` state what it selects |
| Catalog.PngFiles | src/main/java/Main.java:122 | a file is kept exactly when it is in the listing and its name ends in `.png` |
| Catalog.Value | src/main/java/Main.java:131-132 | defines `Integer.parseInt` of a digit run, unbounded; `Catalog.NumericOrder` shows it read as a number (see Left out for overflow) |
| Catalog.FirstRun | src/main/java/Main.java:121 | defines the value of the first maximal digit run; its meaning is given by `Catalog.FirstRunOf` and `Catalog.FirstRunNone` |
| Catalog.FirstNumber | src/main/java/Main.java:121-132 | defines `group(1)` of `.*?(\d+).*` as a number, or no match; its meaning is given by `Catalog.FirstNumberOf` and `Catalog.FirstNumberNone` |
| Catalog.LeadingDigits | src/main/java/Main.java:121 | the digit run taken is a prefix of digits that no further digit follows |
| Catalog.FirstRunOf | src/main/java/Main.java:121 | after a digit-free prefix, the first maximal digit run's value is the number found |
| Catalog.FirstNumberOf | src/main/java/Main.java:121-132 | a name made of a digit-free prefix, a digit run and a rest not starting with a digit, with no line terminator, has that run's value as its key |
| Catalog.FirstRunNone | src/main/java/Main.java:121 | no digit run is found exactly when the name has no digit |
| Catalog.FirstNumberNone | src/main/java/Main.java:126-130 | the pattern fails to match exactly when the name has no digit or holds a line terminator |
| Catalog.SortedByKey | src/main/java/Main.java:123-135 | defines ascending order under the comparator `n1 - n2`; `Catalog.StableSortSpec` and `Catalog.SortedPngListSpec` establish it for the result |
| Catalog.WithKey | src/main/java/Main.java:123-135 | defines the files with one number, in order, the measure of stability; used by `Catalog.StableSortSpec` and `Catalog.SortedDeterminedByKeys` |
| Catalog.Insert | src/main/java/Main.java:123-135 | defines one insertion step of the sort; its meaning is given by `Catalog.InsertPermutes`, `Catalog.InsertSorted` and `Catalog.InsertWithKey` |
| Catalog.StableSort | src/main/java/Main.java:123-135 | defines a stable sort by number; `Catalog.StableSortSpec` proves it stable, ascending and a permutation, `Catalog.StableSortUnique` that it equals any such sort |
| Catalog.SortedPngList | src/main/java/Main.java:120-136 | defines `sortedPNGImageList`, failing with "no number match" or returning the sorted `.png` files; its meaning is given by `Catalog.SortedPngListSpec`, `Catalog.ListingOrderIrrelevant` and `Catalog.NumericOrder` |
| Catalog.InsertPermutes | src/main/java/Main.java:123-134 | inserting a file adds exactly that file |
| Catalog.InsertSorted | src/main/java/Main.java:123-134 | inserting into a key-ordered list keeps it key-ordered |
| Catalog.WithKeyConcat | src/main/java/Main.java:123-134 | the files with a given key in a concatenation are those of each part, in order |
| Catalog.InsertWithKey | src/main/java/Main.java:123-134 | insertion puts the new file ahead of every file already there with its key (stability) |
| Catalog.StableSortSpec | src/main/java/Main.java:123-135 | the sort is ascending by key, a permutation, and keeps listing order among equal keys |
| Catalog.SortedDeterminedByKeys | src/main/java/Main.java:123-135 | two key-ordered lists with the same files per key are equal |
| Catalog.StableSortUnique | src/main/java/Main.java:123-135 | any stable key-ascending sort, the library's included, returns what the model's sort does |
| Catalog.StableSortOfSorted | src/main/java/Main.java:123-135 | a list already in key order sorts to itself |
| Catalog.SortedPngListSpec | src/main/java/Main.java:120-136 | it fails with "no number match" exactly when there are two or more `.png` files and one has no number; otherwise it returns the `.png` files of the listing, key-ascending, permuted and stable |
| Catalog.SortedPngListFails | src/main/java/Main.java:128-130 | the failure condition and its error |
| Catalog.SortedPngListElements | src/main/java/Main.java:122-135 | every returned file is a `.png` file of the listing |
| Catalog.SortedPngListKeyed | src/main/java/Main.java:123-135 | when every `.png` name carries a number the listing sorts without failing |
| Catalog.DistinctKeysIdentify | src/main/java/Main.java:123-135 | when no two files share a number, a number names a single file, whatever the order |
| Catalog.PngFilesCount | src/main/java/Main.java:122 | the filter keeps each `.png` file as many times as the listing holds it and drops every other file |
| Catalog.PngFilesPermuted | src/main/java/Main.java:122 | two listings of the same files in any order hold the same `.png` files |
| Catalog.SortedPermutationEqual | src/main/java/Main.java:123-135 | two number-ordered sequences of the same files are equal when a number names a single file |
| Catalog.SameHead | src/main/java/Main.java:123-135 | two such sequences start with the same file |
| Catalog.SameTail | src/main/java/Main.java:123-135 | after that file, the rest of both are again such sequences of the same files |
| Catalog.TailMultiset | src/main/java/Main.java:123-135 | dropping the first file removes exactly one copy of it |
| Catalog.ListingOrderIrrelevant | src/main/java/Main.java:122-135 | when a number names a single `.png` file, two listings of the same files in any order give the same result, failure included |
| Catalog.NumericOrder | src/main/java/Main.java:120-136 | `img2.png, img10.png, img1.png` sort to `img1, img2, img10` (numeric, not lexicographic) |
| Catalog.NoDigitsFails | src/main/java/Main.java:128-130 | `noDigitsHere.png` next to `img1.png` makes the whole listing fail with "no number match" |
| Catalog.KeyNoDigitsHere | src/main/java/Main.java:126-128 | `noDigitsHere.png` has no number |
| Encoder.PairFile | src/main/java/Main.java:82-103 | the file of pair i is named after frame i+1 and has frame 0's size |
| Encoder.EncodedFiles | src/main/java/Main.java:65-104 | one output file per input frame, the first being frame 0 itself |
| Encoder.EncodedFilesSpec | src/main/java/Main.java:65-104 | the anchor is copied verbatim, the file of pair i is at position i+1, every output carries the name of the input at its position, and all have frame 0's size |
| Encoder.DiffImage | src/main/java/Main.java:88-101 | the raster cleared to zero and then set at every non-zero difference equals the delta of the two frames |
| Encoder.RunWorker | src/main/java/Main.java:74-104 | a worker appends exactly the files of the pairs in its range, in index order, after those of the earlier ranges |
| Encoder.Compress | src/main/java/Main.java:51-118 | errors of the listing propagate; an empty list fails at `get(0)`; otherwise the files written are the anchor and every pair's delta, whatever the number of processors |
| Decoder.Reconstruct | src/main/java/Main.java:144-165 | the reconstruction has one frame per delta plus the anchor, the anchor first, all of the anchor's size |
| Decoder.ReconstructStep | src/main/java/Main.java:148-164 | each reconstructed frame is the previous reconstructed frame minus its delta, and more deltas only extend the reconstruction |
| Decoder.Images | src/main/java/Main.java:147-153 | an assumption of the model, not a property proved about the code: `ImageIO.read` of each file yields the image the file carries, in order |
| Decoder.DecodedFiles | src/main/java/Main.java:144-164 | one output file per input file, each under the input's name |
| Decoder.DeltaImages | src/main/java/Main.java:88-101 | one delta per consecutive pair, each of frame 0's size |
| Decoder.ReconstructImage | src/main/java/Main.java:153-161 | the raster filled with `px1 - diffValue` equals the undelta of the current frame and the delta |
| Decoder.Replay | src/main/java/Main.java:144-165 | the files written are the anchor and then each reconstruction, computed from the frame written just before it |
| Decoder.Decompress | src/main/java/Main.java:138-166 | errors of the listing propagate; an empty list fails at `get(0)`; otherwise the files written are the decoded chain |
| Decoder.ReconstructDeltas | src/main/java/Main.java:144-164 | reconstructing from frame 0 and the deltas of consecutive frames gives back frame k at position k |
| Decoder.RoundTrip | src/main/java/Main.java:46-47 | decompressing what compression writes gives back the original frames, names and pixels |
| Verifier.RowMismatches | src/main/java/Main.java:183-192 | defines the warnings of one row, left to right; `Verifier.RowMismatchesSpec` proves they are exactly the differing pixels |
| Verifier.ImageMismatches | src/main/java/Main.java:182-193 | defines the warnings of one frame pair, row by row; `Verifier.ImageMismatchesSpec` proves they are exactly the differing pixels |
| Verifier.AllMismatches | src/main/java/Main.java:175-193 | defines the warnings of the whole scan; `Verifier.AllMismatchesSpec`, `Verifier.NoMismatchesForEqual` and `Verifier.OneDifferingPixel` give it meaning |
| Verifier.ConcatInScanOrder | src/main/java/Main.java:175-193 | warnings of a later part of the scan come after those of an earlier part |
| Verifier.RowMismatchesSpec | src/main/java/Main.java:183-192 | a row reports exactly its differing pixels, left to right |
| Verifier.ImageMismatchesSpec | src/main/java/Main.java:182-193 | a frame reports exactly its differing pixels, in row-major order |
| Verifier.AllMismatchesSpec | src/main/java/Main.java:175-194 | the scan reports every differing pixel of every compared frame and nothing else, once each, in scan order |
| Verifier.EqualRowsNoMismatches | src/main/java/Main.java:183-192 | equal rows give no warning |
| Verifier.EqualImagesNoMismatches | src/main/java/Main.java:182-193 | equal frames give no warning |
| Verifier.NoMismatchesForEqual | src/main/java/Main.java:175-194 | equal frame sequences give no warning at all |
| Verifier.ScanOrderDistinct | src/main/java/Main.java:175-194 | a report in scan order repeats no warning |
| Verifier.OnlyEntry | src/main/java/Main.java:175-194 | a scan-ordered report holding one warning and nothing else is that warning alone |
| Verifier.OneDifferingPixel | src/main/java/Main.java:175-194 | two sequences that differ in one pixel produce exactly one warning, with that frame, row, column and the two pixel values |
| Verifier.CompareImages | src/main/java/Main.java:182-193 | the nested loops report exactly the differing pixels of one pair, in row-major order |
| Verifier.ScanFrames | src/main/java/Main.java:175-194 | the outer loop reports the differing pixels of every position in turn |
| Verifier.SortedComparable | src/main/java/Main.java:169-174 | the sorted lists' files at each shared position have the size probed from the first list's frame 0 |
| Verifier.Compare | src/main/java/Main.java:168-195 | sort failures end it with no warning; an empty first list fails at `get(0)`; a shorter second list fails at its missing position after the warnings before it; otherwise every position is compared and nothing fails |
| Pipeline.PngFilesOfPngs | src/main/java/Main.java:122 | filtering `.png` files keeps them all |
| Pipeline.RelistSorted | src/main/java/Main.java:120-136 | key-ordered `.png` files with numbers list back unchanged |
| Pipeline.SortedListingRelistable | src/main/java/Main.java:120-136 | a sorted listing is key-ordered, all `.png`, and numbered when it has two or more files |
| Pipeline.RelistableByNames | src/main/java/Main.java:102-103 | files named like a relistable sequence, position by position, are relistable |
| Pipeline.SameSizeWithOwnFiles | src/main/java/Main.java:169-172 | a same-size list followed by its own files is still same-size |
| Pipeline.EncodedRelists | src/main/java/Main.java:46-47 | the compressed directory lists back as exactly the files written, in order |
| Pipeline.DecodedRelists | src/main/java/Main.java:47-48 | the decompressed directory lists back as the sorted frames |
| Pipeline.CompressDecompressCompare | src/main/java/Main.java:39-49 | with each output directory listed in write order: compress, decompress and compare in turn; decompression yields the sorted frames and the comparison reports no difference and no failure |
| Pipeline.EncodedRelistsAnyOrder | src/main/java/Main.java:46-47 | without repeated numbers, the compressed directory listed in any order sorts back into the order written |
| Pipeline.EncodedKeysIdentify | src/main/java/Main.java:46-47 | the compressed files list back in write order and, without repeated numbers among the frames, a number names a single one of them |
| Pipeline.PermutedSameSize | src/main/java/Main.java:138-140 | the `.png` files of any listing of same-size files are same-size |
| Pipeline.DecodedRelistsAnyOrder | src/main/java/Main.java:47-48 | without repeated numbers, the decompressed directory listed in any order sorts back into the sorted frames |
| Pipeline.CompressDecompressCompareAnyOrder | src/main/java/Main.java:39-49 | without repeated numbers and with both output directories listed in any order: decompression yields the sorted frames and the comparison reports no difference and no failure |

## Left out

- Image I/O (`ImageIO.read`/`write`, `probeDimension`, `Files.copy`) is not modelled as file access. Each file carries its decoded raster, and PNG encoding is taken to be lossless, so a raster written and read back is the same raster (`Frames.Snapshot`). Probe failures and I/O errors are not modelled.
- Threads are not modelled: the executor, futures and `shutdown`. The workers run one after the other, in worker order. Their ranges are disjoint (`Partition.ExactCover`) and each writes a different file name, so the files in the output directory do not depend on how the workers interleave. The order of the writes does depend on it.
- The console output (`printf`, including the mismatch line that prints the column in hex) is not modelled. A warning is modelled as a `Verifier.Mismatch` record.
- `main`'s fixed paths and its directory creation are left out. The code creates `compressed` twice and never creates `decompressed`. Both pipeline methods assume that each output directory holds exactly the files written into it.
- The order in which directories are listed is an input: the listing sequence. With repeated numbers, the order among equal keys follows that listing order.
- Pipeline.CompressDecompressCompare: assumes that BOTH output directories, `compressed` and `decompressed`, are listed in the order their files were written. With repeated numbers nothing else would do: for frames `b1.png, a1.png` sorted in that order, a listing of the output as `a1.png, b1.png` makes `decompress` take `a1.png`'s delta as the anchor and makes `compare` pair the frames crosswise.
- Pipeline.CompressDecompressCompareAnyOrder: drops that listing-order assumption, but only for frames whose numbers are all distinct.
- `Integer.parseInt` overflow is not modelled (`Catalog.Value`). A number of ten or more digits beyond the `int` range would throw `NumberFormatException`. The model's keys are unbounded naturals.
- Encoder.Compress: requires frames of one size (`SameSize`). The code never checks dimensions: a smaller frame would throw from `getRGB`, and a larger one would be silently cropped to frame 0's size.
- Decoder.Decompress: requires deltas of one size, for the same reason as `Encoder.Compress`.
- Verifier.Compare: requires both lists' frames to have the size of the first list's frame 0, for the same reason as `Encoder.Compress`.
- The `File` objects' absolute paths in the mismatch warning are modelled by file names.

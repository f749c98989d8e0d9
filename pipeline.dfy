/** `main`: compress a directory of frames, decompress the result into a second directory, and
    compare the original directory with the decompressed one. */
module Pipeline {
  import opened Frames
  import Catalog
  import Encoder
  import Decoder
  import Verifier

  /** Filtering a list of `.png` files keeps all of them. */
  lemma {:induction false} PngFilesOfPngs(fs: seq<ImageFile>)
    requires forall i | 0 <= i < |fs| :: Catalog.IsPng(fs[i].name)
    ensures Catalog.PngFiles(fs) == fs
  {
    if |fs| > 0 {
      PngFilesOfPngs(fs[1..]);
    }
  }

  /** Files written in key order under `.png` names that carry numbers are listed back in that
      same order (a single file needs no number: the comparator is never called). */
  lemma RelistSorted(fs: seq<ImageFile>)
    requires Catalog.SortedByKey(fs)
    requires forall i | 0 <= i < |fs| :: Catalog.IsPng(fs[i].name)
    requires |fs| >= 2 ==> forall i | 0 <= i < |fs| :: Catalog.FirstNumber(fs[i].name).Some?
    ensures Catalog.SortedPngList(fs) == Ok(fs)
  {
    PngFilesOfPngs(fs);
    Catalog.StableSortOfSorted(fs);
  }

  /** What files need to be listed back unchanged: they are in key order, every name is a
      `.png` name, and with two or more files every name carries a number. */
  predicate Relistable(fs: seq<ImageFile>) {
    && Catalog.SortedByKey(fs)
    && (forall i | 0 <= i < |fs| :: Catalog.IsPng(fs[i].name))
    && (|fs| >= 2 ==> forall i | 0 <= i < |fs| :: Catalog.FirstNumber(fs[i].name).Some?)
  }

  lemma SortedListingRelistable(listing: seq<ImageFile>)
    requires Catalog.SortedPngList(listing).Ok?
    ensures Relistable(Catalog.SortedPngList(listing).value)
  {
    var fs := Catalog.SortedPngList(listing).value;
    var pngs := Catalog.PngFiles(listing);
    Catalog.SortedPngListSpec(listing);
    assert |fs| == |pngs| by {
      assert |multiset(fs)| == |multiset(pngs)|;
    }
    forall i | 0 <= i < |fs|
      ensures Catalog.IsPng(fs[i].name)
      ensures |fs| >= 2 ==> Catalog.FirstNumber(fs[i].name).Some?
    {
      assert fs[i] in pngs;
    }
  }

  /** Files that carry the names of a relistable sequence, position by position, are relistable. */
  lemma RelistableByNames(fs: seq<ImageFile>, gs: seq<ImageFile>)
    requires Relistable(fs) && |gs| == |fs|
    requires forall k | 0 <= k < |fs| :: gs[k].name == fs[k].name
    ensures Relistable(gs)
  {
    assert forall k | 0 <= k < |fs| :: Catalog.Key(gs[k]) == Catalog.Key(fs[k]);
  }

  /** Every file of a non-empty same-size list, followed by any of its own files, still has the
      first file's size. */
  lemma SameSizeWithOwnFiles(pngs: seq<ImageFile>, fs: seq<ImageFile>)
    requires SameSize(pngs) && |pngs| >= 1
    requires forall f | f in fs :: f in pngs
    ensures SameSize(pngs + fs)
  {
    SameSizeOfElements(pngs, pngs + fs);
  }

  /** The directory `compress` writes lists back as exactly the files written, in order. */
  lemma EncodedRelists(listing: seq<ImageFile>)
    requires SameSize(Catalog.PngFiles(listing))
    requires Catalog.SortedPngList(listing).Ok? && |Catalog.SortedPngList(listing).value| >= 1
    ensures var frames := Catalog.SortedPngList(listing).value;
      && SameSize(frames)
      && var encoded := Encoder.EncodedFiles(frames);
      && Catalog.SortedPngList(encoded) == Ok(encoded)
      && SameSize(Catalog.PngFiles(encoded))
  {
    var frames := Catalog.SortedPngList(listing).value;
    Catalog.SortedPngListElements(listing);
    SameSizeOfElements(Catalog.PngFiles(listing), frames);
    var encoded := Encoder.EncodedFiles(frames);
    Encoder.EncodedFilesSpec(frames);
    SortedListingRelistable(listing);
    RelistableByNames(frames, encoded);
    RelistSorted(encoded);
    PngFilesOfPngs(encoded);
  }

  /** The directory `decompress` writes lists back as the sorted frames, and the two directories
      that `compare` reads together hold frames of one size. */
  lemma DecodedRelists(listing: seq<ImageFile>)
    requires SameSize(Catalog.PngFiles(listing))
    requires Catalog.SortedPngList(listing).Ok? && |Catalog.SortedPngList(listing).value| >= 1
    ensures var frames := Catalog.SortedPngList(listing).value;
      && Catalog.SortedPngList(frames) == Ok(frames)
      && SameSize(Catalog.PngFiles(listing) + Catalog.PngFiles(frames))
  {
    var frames := Catalog.SortedPngList(listing).value;
    SortedListingRelistable(listing);
    RelistSorted(frames);
    PngFilesOfPngs(frames);
    Catalog.SortedPngListElements(listing);
    SameSizeWithOwnFiles(Catalog.PngFiles(listing), frames);
  }

  /** `main`, with each of the two output directories listed as exactly the files written into
      it, in the order written: for any listing that sorts to at least one frame of one size,
      decompression yields the sorted frames bit for bit under their own names, and the
      comparison reports no difference and no failure. */
  method CompressDecompressCompare(listing: seq<ImageFile>, procs: nat)
    returns (compressed: Result<seq<ImageFile>>, decompressed: Result<seq<ImageFile>>, report: Verifier.Report)
    requires procs >= 1 && SameSize(Catalog.PngFiles(listing))
    requires Catalog.SortedPngList(listing).Ok? && |Catalog.SortedPngList(listing).value| >= 1
    ensures compressed.Ok? && |compressed.value| == |Catalog.SortedPngList(listing).value|
    ensures decompressed == Ok(Catalog.SortedPngList(listing).value)
    ensures report == Verifier.Report([], None)
  {
    ghost var frames := Catalog.SortedPngList(listing).value;
    EncodedRelists(listing);
    compressed := Encoder.Compress(listing, procs);
    assert compressed == Ok(Encoder.EncodedFiles(frames));
    decompressed := Decoder.Decompress(compressed.value);
    Decoder.RoundTrip(frames);
    assert decompressed == Ok(frames);
    DecodedRelists(listing);
    report := Verifier.Compare(listing, decompressed.value);
    Verifier.NoMismatchesForEqual(frames, frames, frames[0].image.width, frames[0].image.height, |frames|);
  }

  /** The files of the compressed directory, listed in any order, sort back into the order
      `compress` wrote them when no two frames share a number. */
  lemma EncodedRelistsAnyOrder(frames: seq<ImageFile>, relisted: seq<ImageFile>)
    requires |frames| >= 1 && SameSize(frames) && Relistable(frames) && Catalog.DistinctKeys(frames)
    requires multiset(relisted) == multiset(Encoder.EncodedFiles(frames))
    ensures Catalog.SortedPngList(relisted) == Ok(Encoder.EncodedFiles(frames))
    ensures SameSize(Catalog.PngFiles(relisted))
  {
    var encoded := Encoder.EncodedFiles(frames);
    EncodedKeysIdentify(frames);
    Catalog.ListingOrderIrrelevant(encoded, relisted);
    PermutedSameSize(encoded, relisted);
  }

  /** The files `compress` writes list back in write order, and without repeated numbers among
      the frames a number names a single one of them. */
  lemma EncodedKeysIdentify(frames: seq<ImageFile>)
    requires |frames| >= 1 && SameSize(frames) && Relistable(frames) && Catalog.DistinctKeys(frames)
    ensures var encoded := Encoder.EncodedFiles(frames);
      && Catalog.SortedPngList(encoded) == Ok(encoded)
      && SameSize(encoded)
      && Catalog.KeysIdentify(Catalog.PngFiles(encoded))
  {
    var encoded := Encoder.EncodedFiles(frames);
    Encoder.EncodedFilesSpec(frames);
    RelistableByNames(frames, encoded);
    RelistSorted(encoded);
    PngFilesOfPngs(encoded);
    assert Catalog.DistinctKeys(encoded) by {
      assert forall k | 0 <= k < |encoded| :: Catalog.Key(encoded[k]) == Catalog.Key(frames[k]);
    }
    Catalog.DistinctKeysIdentify(encoded);
  }

  /** The `.png` files of any listing of same-size files are same-size. */
  lemma PermutedSameSize(fs: seq<ImageFile>, relisted: seq<ImageFile>)
    requires SameSize(fs) && multiset(relisted) == multiset(fs)
    ensures SameSize(Catalog.PngFiles(relisted))
  {
    forall f | f in Catalog.PngFiles(relisted)
      ensures f in fs
    {
      assert f in multiset(relisted);
    }
    SameSizeOfElements(fs, Catalog.PngFiles(relisted));
  }

  /** The files of the decompressed directory, listed in any order, sort back into the sorted
      frames when no two frames share a number. */
  lemma DecodedRelistsAnyOrder(listing: seq<ImageFile>, relisted: seq<ImageFile>)
    requires SameSize(Catalog.PngFiles(listing))
    requires Catalog.SortedPngList(listing).Ok? && |Catalog.SortedPngList(listing).value| >= 1
    requires Catalog.DistinctKeys(Catalog.SortedPngList(listing).value)
    requires multiset(relisted) == multiset(Catalog.SortedPngList(listing).value)
    ensures Catalog.SortedPngList(relisted) == Ok(Catalog.SortedPngList(listing).value)
    ensures SameSize(Catalog.PngFiles(listing) + Catalog.PngFiles(relisted))
  {
    var frames := Catalog.SortedPngList(listing).value;
    DecodedRelists(listing);
    SortedListingRelistable(listing);
    PngFilesOfPngs(frames);
    Catalog.DistinctKeysIdentify(frames);
    Catalog.ListingOrderIrrelevant(frames, relisted);
    Catalog.SortedPngListElements(listing);
    forall f | f in Catalog.PngFiles(relisted)
      ensures f in Catalog.PngFiles(listing)
    {
      assert f in multiset(relisted);
      assert f in frames;
    }
    SameSizeWithOwnFiles(Catalog.PngFiles(listing), Catalog.PngFiles(relisted));
  }

  /** `main` when the file system lists each output directory in an order of its own choosing
      (`listCompressed` and `listDecompressed` return the files written, permuted): as long as no
      two frames share a number, decompression still yields the sorted frames and the comparison
      still reports no difference and no failure. */
  method CompressDecompressCompareAnyOrder(listing: seq<ImageFile>, procs: nat,
      listCompressed: seq<ImageFile> -> seq<ImageFile>, listDecompressed: seq<ImageFile> -> seq<ImageFile>)
    returns (compressed: Result<seq<ImageFile>>, decompressed: Result<seq<ImageFile>>, report: Verifier.Report)
    requires procs >= 1 && SameSize(Catalog.PngFiles(listing))
    requires Catalog.SortedPngList(listing).Ok? && |Catalog.SortedPngList(listing).value| >= 1
    requires Catalog.DistinctKeys(Catalog.SortedPngList(listing).value)
    requires forall s :: multiset(listCompressed(s)) == multiset(s)
    requires forall s :: multiset(listDecompressed(s)) == multiset(s)
    ensures compressed.Ok? && |compressed.value| == |Catalog.SortedPngList(listing).value|
    ensures decompressed == Ok(Catalog.SortedPngList(listing).value)
    ensures report == Verifier.Report([], None)
  {
    ghost var frames := Catalog.SortedPngList(listing).value;
    EncodedRelists(listing);
    compressed := Encoder.Compress(listing, procs);
    assert compressed == Ok(Encoder.EncodedFiles(frames));
    var compressedDir := listCompressed(compressed.value);
    SortedListingRelistable(listing);
    EncodedRelistsAnyOrder(frames, compressedDir);
    decompressed := Decoder.Decompress(compressedDir);
    Decoder.RoundTrip(frames);
    assert decompressed == Ok(frames);
    var decompressedDir := listDecompressed(decompressed.value);
    DecodedRelistsAnyOrder(listing, decompressedDir);
    report := Verifier.Compare(listing, decompressedDir);
    Verifier.NoMismatchesForEqual(frames, frames, frames[0].image.width, frames[0].image.height, |frames|);
  }
}

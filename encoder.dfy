/** `compress`: the anchor frame copied verbatim, then for every pair of consecutive frames
    (i, i+1) a delta raster written under frame i+1's name, the pairs split among workers. */
module Encoder {
  import opened Frames
  import Catalog
  import Partition

  /** The file `compress` writes for pair i: the delta of frames i and i+1, named after frame i+1. */
  function PairFile(frames: seq<ImageFile>, i: nat): (f: ImageFile)
    requires SameSize(frames) && i + 1 < |frames|
    ensures f.name == frames[i + 1].name
    ensures Shaped(f.image, frames[0].image.width, frames[0].image.height)
  {
    ImageFile(frames[i + 1].name, Delta(frames[i].image, frames[i + 1].image))
  }

  /** The files `compress` writes for sorted frames, in index order: frame 0 as it is (the
      anchor), then the file of each pair, so one file per input name. */
  function EncodedFiles(frames: seq<ImageFile>): (out: seq<ImageFile>)
    requires |frames| >= 1 && SameSize(frames)
    ensures |out| == |frames| && out[0] == frames[0]
  {
    [frames[0]] + seq(|frames| - 1, i requires 0 <= i < |frames| - 1 => PairFile(frames, i))
  }

  /** The anchor is written verbatim, the file of pair i sits at position i+1, every output file
      carries the name of the input frame at its position, and all have frame 0's size. */
  lemma EncodedFilesSpec(frames: seq<ImageFile>)
    requires |frames| >= 1 && SameSize(frames)
    ensures var out := EncodedFiles(frames);
      && out[0] == frames[0]
      && (forall i | 0 <= i < |frames| - 1 :: out[i + 1] == PairFile(frames, i))
      && (forall k | 0 <= k < |out| :: out[k].name == frames[k].name)
      && SameSize(out)
  {
    var out := EncodedFiles(frames);
    forall k | 0 <= k < |out|
      ensures out[k].name == frames[k].name
      ensures Shaped(out[k].image, out[0].image.width, out[0].image.height)
    {
      if k > 0 {
        assert out[k] == PairFile(frames, k - 1);
      }
    }
  }

  /** One pair: a raster cleared to transparent zero, then every pixel whose difference
      `px1 - px2` (wrapping) is non-zero set to it; the result is the delta of the pair. */
  method DiffImage(image1: Image, image2: Image, width: nat, height: nat) returns (diff: Image)
    requires image1.WellFormed() && image2.WellFormed() && SameShape(image1, image2)
    requires image1.width == width && image1.height == height
    ensures diff == Delta(image1, image2)
  {
    var raster := new Pixel[height, width]((y: nat, x: nat) => 0);
    for y := 0 to height
      invariant forall yy, xx | 0 <= yy < height && 0 <= xx < width ::
        raster[yy, xx] == if yy < y then Sub(image1.rows[yy][xx], image2.rows[yy][xx]) else 0
    {
      for x := 0 to width
        invariant forall yy, xx | 0 <= yy < height && 0 <= xx < width ::
          raster[yy, xx] ==
            if yy < y || (yy == y && xx < x) then Sub(image1.rows[yy][xx], image2.rows[yy][xx]) else 0
      {
        var px1 := image1.rows[y][x];
        var px2 := image2.rows[y][x];
        var d := Sub(px1, px2);
        if d != 0 {
          raster[y, x] := d;
        }
      }
    }
    diff := Snapshot(raster);
    var expected := Delta(image1, image2);
    assert forall y | 0 <= y < height :: diff.rows[y] == expected.rows[y];
  }

  /** `compress` over a directory listing: list and sort the `.png` files (failing as the listing
      does), fail on an empty list where frame 0 is read, copy frame 0, then let each worker of
      the plan diff its range of pairs. Returns the files written, in the order written. */
  method Compress(listing: seq<ImageFile>, procs: nat) returns (r: Result<seq<ImageFile>>)
    requires procs >= 1
    requires SameSize(Catalog.PngFiles(listing))
    ensures Catalog.SortedPngList(listing).Err? ==> r == Err(Catalog.SortedPngList(listing).error)
    ensures Catalog.SortedPngList(listing).Ok? && |Catalog.SortedPngList(listing).value| == 0 ==>
      r == Err(IndexOutOfBounds(0))
    ensures Catalog.SortedPngList(listing).Ok? && |Catalog.SortedPngList(listing).value| >= 1 ==>
      SameSize(Catalog.SortedPngList(listing).value) &&
      r == Ok(EncodedFiles(Catalog.SortedPngList(listing).value))
  {
    var listed := Catalog.SortedPngList(listing);
    if listed.Err? {
      return Err(listed.error);
    }
    var frames := listed.value;
    if |frames| == 0 {
      return Err(IndexOutOfBounds(0));
    }
    Catalog.SortedPngListElements(listing);
    SameSizeOfElements(Catalog.PngFiles(listing), frames);
    var size := |frames|;
    var width, height := frames[0].image.width, frames[0].image.height;
    var plan := Partition.MakePlan(procs, size);
    var written := [frames[0]];
    for t := 0 to plan.workers
      invariant 0 <= Partition.Done(plan, size, t) <= size - 1
      invariant written == EncodedFiles(frames)[..1 + Partition.Done(plan, size, t)]
    {
      Partition.RangeFacts(procs, size, t);
      written := RunWorker(frames, width, height, Partition.Start(plan, t), Partition.End(plan, size, t), written);
    }
    Partition.AllDone(procs, size);
    assert EncodedFiles(frames)[..size] == EncodedFiles(frames);
    return Ok(written);
  }

  /** One worker: diff the pairs start .. end in order, appending each file to those written so
      far. Starting from the files of the pairs before `start`, it leaves those up to `end`. */
  method RunWorker(frames: seq<ImageFile>, width: nat, height: nat, start: int, end: int, written: seq<ImageFile>)
    returns (out: seq<ImageFile>)
    requires |frames| >= 1 && SameSize(frames)
    requires width == frames[0].image.width && height == frames[0].image.height
    requires 0 <= start <= end + 1 && end + 1 < |frames|
    requires written == EncodedFiles(frames)[..1 + start]
    ensures out == EncodedFiles(frames)[..2 + end]
  {
    EncodedFilesSpec(frames);
    ghost var encoded := EncodedFiles(frames);
    out := written;
    var i := start;
    while i <= end
      invariant start <= i <= end + 1
      invariant out == encoded[..1 + i]
    {
      var d := DiffImage(frames[i].image, frames[i + 1].image, width, height);
      out := out + [ImageFile(frames[i + 1].name, d)];
      assert encoded[..1 + i] + [encoded[1 + i]] == encoded[..2 + i];
      i := i + 1;
    }
  }
}

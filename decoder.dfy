/** `decompress`: a strictly sequential running accumulator. The anchor is copied verbatim and
    becomes the current frame; each later file is a delta, and current minus delta is written
    under the delta's name and becomes the current frame. */
module Decoder {
  import opened Frames
  import Catalog
  import Encoder

  /** The frames that decoding reconstructs from an anchor and the deltas that follow it, in
      order: the anchor, then each previous result minus the next delta. */
  function Reconstruct(anchor: Image, deltas: seq<Image>): (out: seq<Image>)
    requires anchor.WellFormed()
    requires forall k | 0 <= k < |deltas| :: Shaped(deltas[k], anchor.width, anchor.height)
    ensures |out| == |deltas| + 1 && out[0] == anchor
    ensures forall k | 0 <= k < |out| :: Shaped(out[k], anchor.width, anchor.height)
  {
    if |deltas| == 0 then [anchor]
    else
      var prev := Reconstruct(anchor, deltas[..|deltas| - 1]);
      var current, delta := prev[|prev| - 1], deltas[|deltas| - 1];
      assert Shaped(current, anchor.width, anchor.height) && Shaped(delta, anchor.width, anchor.height);
      prev + [Undelta(current, delta)]
  }

  /** Each reconstructed frame after the anchor is the frame before it minus the delta at its
      position, and a longer chain of deltas only extends the reconstruction. */
  lemma {:induction false} ReconstructStep(anchor: Image, deltas: seq<Image>, k: nat)
    requires anchor.WellFormed()
    requires forall j | 0 <= j < |deltas| :: Shaped(deltas[j], anchor.width, anchor.height)
    requires k < |deltas|
    ensures Reconstruct(anchor, deltas)[k + 1] == Undelta(Reconstruct(anchor, deltas)[k], deltas[k])
    ensures Reconstruct(anchor, deltas[..k + 1]) == Reconstruct(anchor, deltas)[..k + 2]
    decreases |deltas|
  {
    var init := deltas[..|deltas| - 1];
    if k < |deltas| - 1 {
      ReconstructStep(anchor, init, k);
      assert init[..k + 1] == deltas[..k + 1];
      assert Reconstruct(anchor, init)[k + 1] == Reconstruct(anchor, deltas)[k + 1];
      assert Reconstruct(anchor, init)[k] == Reconstruct(anchor, deltas)[k];
    } else {
      assert deltas[..k + 1] == deltas;
    }
  }

  /** The images of a sequence of files. */
  function Images(fs: seq<ImageFile>): (ims: seq<Image>)
    ensures |ims| == |fs| && forall k | 0 <= k < |fs| :: ims[k] == fs[k].image
  {
    seq(|fs|, k requires 0 <= k < |fs| => fs[k].image)
  }

  /** The files `decompress` writes for sorted files, in order: the reconstructed frame at each
      position under the name of the file at that position. */
  function DecodedFiles(files: seq<ImageFile>): (out: seq<ImageFile>)
    requires |files| >= 1 && SameSize(files)
    ensures |out| == |files|
    ensures forall k | 0 <= k < |out| :: out[k].name == files[k].name
  {
    var recon := Reconstruct(files[0].image, Images(files[1..]));
    seq(|files|, k requires 0 <= k < |files| => ImageFile(files[k].name, recon[k]))
  }

  /** One step: current minus delta, pixel by pixel, into a new raster. */
  method ReconstructImage(current: Image, delta: Image, width: nat, height: nat) returns (result: Image)
    requires Shaped(current, width, height) && Shaped(delta, width, height)
    ensures result == Undelta(current, delta)
  {
    var raster := new Pixel[height, width]((y: nat, x: nat) => 0);
    for y := 0 to height
      invariant forall yy, xx | 0 <= yy < y && 0 <= xx < width ::
        raster[yy, xx] == Sub(current.rows[yy][xx], delta.rows[yy][xx])
    {
      for x := 0 to width
        invariant forall yy, xx | 0 <= yy < height && 0 <= xx < width && (yy < y || (yy == y && xx < x)) ::
          raster[yy, xx] == Sub(current.rows[yy][xx], delta.rows[yy][xx])
      {
        var px1 := current.rows[y][x];
        var diffValue := delta.rows[y][x];
        raster[y, x] := Sub(px1, diffValue);
      }
    }
    result := Snapshot(raster);
    var expected := Undelta(current, delta);
    assert forall y | 0 <= y < height :: result.rows[y] == expected.rows[y];
  }

  /** `decompress` over a directory listing: list and sort the `.png` files (failing as the
      listing does), fail on an empty list where frame 0 is read, copy the anchor, then
      reconstruct the rest one after the other. Returns the files written, in the order written. */
  method Decompress(listing: seq<ImageFile>) returns (r: Result<seq<ImageFile>>)
    requires SameSize(Catalog.PngFiles(listing))
    ensures Catalog.SortedPngList(listing).Err? ==> r == Err(Catalog.SortedPngList(listing).error)
    ensures Catalog.SortedPngList(listing).Ok? && |Catalog.SortedPngList(listing).value| == 0 ==>
      r == Err(IndexOutOfBounds(0))
    ensures Catalog.SortedPngList(listing).Ok? && |Catalog.SortedPngList(listing).value| >= 1 ==>
      SameSize(Catalog.SortedPngList(listing).value) &&
      r == Ok(DecodedFiles(Catalog.SortedPngList(listing).value))
  {
    var listed := Catalog.SortedPngList(listing);
    if listed.Err? {
      return Err(listed.error);
    }
    var files := listed.value;
    if |files| == 0 {
      return Err(IndexOutOfBounds(0));
    }
    Catalog.SortedPngListElements(listing);
    SameSizeOfElements(Catalog.PngFiles(listing), files);
    var width, height := files[0].image.width, files[0].image.height;
    var written := Replay(files, width, height);
    return Ok(written);
  }

  /** The loop of `decompress` over the sorted files: the anchor first, then one reconstructed
      frame per delta, each computed from the frame written just before it. */
  method Replay(files: seq<ImageFile>, width: nat, height: nat) returns (written: seq<ImageFile>)
    requires |files| >= 1 && SameSize(files)
    requires width == files[0].image.width && height == files[0].image.height
    ensures written == DecodedFiles(files)
  {
    var anchor := files[0];
    var deltas := files[1..];
    ghost var recon := Reconstruct(anchor.image, Images(deltas));
    ghost var decoded := DecodedFiles(files);
    written := [anchor];
    var current := anchor.image;
    for i := 0 to |deltas|
      invariant current == recon[i]
      invariant written == decoded[..i + 1]
    {
      assert deltas[i] == files[i + 1];
      ReconstructStep(anchor.image, Images(deltas), i);
      var result := ReconstructImage(current, deltas[i].image, width, height);
      written := written + [ImageFile(deltas[i].name, result)];
      assert decoded[..i + 1] + [decoded[i + 1]] == decoded[..i + 2];
      current := result;
    }
    assert decoded[..|files|] == decoded;
  }

  /** The deltas of consecutive frames, as `compress` computes them. */
  function DeltaImages(frames: seq<ImageFile>): (ds: seq<Image>)
    requires SameSize(frames)
    ensures |ds| == if |frames| == 0 then 0 else |frames| - 1
    ensures forall k | 0 <= k < |ds| ::
      Shaped(ds[k], frames[0].image.width, frames[0].image.height)
  {
    if |frames| == 0 then []
    else seq(|frames| - 1, k requires 0 <= k < |frames| - 1 => Delta(frames[k].image, frames[k + 1].image))
  }

  /** Reconstructing from the first frame and the deltas of consecutive frames gives back frame
      k at position k. */
  lemma {:induction false} ReconstructDeltas(frames: seq<ImageFile>, k: nat)
    requires |frames| >= 1 && SameSize(frames) && k < |frames|
    ensures Reconstruct(frames[0].image, DeltaImages(frames))[k] == frames[k].image
  {
    if k > 0 {
      var ds := DeltaImages(frames);
      ReconstructDeltas(frames, k - 1);
      ReconstructStep(frames[0].image, ds, k - 1);
      UndeltaInvertsDelta(frames[k - 1].image, frames[k].image);
    }
  }

  /** Round trip: decoding what the encoder writes returns the original frames, each under its
      own name, bit for bit. */
  lemma RoundTrip(frames: seq<ImageFile>)
    requires |frames| >= 1 && SameSize(frames)
    ensures var out := Encoder.EncodedFiles(frames);
      SameSize(out) && DecodedFiles(out) == frames
  {
    var out := Encoder.EncodedFiles(frames);
    Encoder.EncodedFilesSpec(frames);
    assert Images(out[1..]) == DeltaImages(frames) by {
      forall k | 0 <= k < |frames| - 1
        ensures Images(out[1..])[k] == DeltaImages(frames)[k]
      {
        assert out[k + 1] == Encoder.PairFile(frames, k);
      }
    }
    var decoded := DecodedFiles(out);
    forall k | 0 <= k < |frames|
      ensures decoded[k] == frames[k]
    {
      ReconstructDeltas(frames, k);
    }
  }
}

/** `compare`: both directories listed and sorted, then every pixel of every frame of the first
    compared with the same pixel of the frame at the same position in the second; each
    difference is reported and the scan never stops early. */
module Verifier {
  import opened Frames
  import Catalog

  /** One "invalid diff" warning: the frame position, the pixel's row and column, the two files'
      names and the two pixel values. */
  datatype Mismatch = Mismatch(frame: nat, y: nat, x: nat, file1: string, file2: string, px1: Pixel, px2: Pixel)

  /** What a comparison leaves behind: the warnings in the order they were reported, and the
      failure that ended it early, if any. */
  datatype Report = Report(mismatches: seq<Mismatch>, failure: Option<Error>)

  /** `m` is a genuine difference between pixel (m.y, m.x) of the files at position k. */
  predicate Reported(k: nat, f1: ImageFile, f2: ImageFile, m: Mismatch) {
    && m.frame == k && m.file1 == f1.name && m.file2 == f2.name
    && m.y < |f1.image.rows| && m.y < |f2.image.rows|
    && m.x < |f1.image.rows[m.y]| && m.x < |f2.image.rows[m.y]|
    && m.px1 == f1.image.rows[m.y][m.x] && m.px2 == f2.image.rows[m.y][m.x]
    && m.px1 != m.px2
  }

  /** Frame first, then row, then column: the order of the scan. */
  predicate Before(a: Mismatch, b: Mismatch) {
    a.frame < b.frame || (a.frame == b.frame && (a.y < b.y || (a.y == b.y && a.x < b.x)))
  }

  predicate InScanOrder(ms: seq<Mismatch>) {
    forall i, j | 0 <= i < j < |ms| :: Before(ms[i], ms[j])
  }

  /** Both files at position k hold rasters of width w and height h. */
  predicate Comparable(f1: ImageFile, f2: ImageFile, w: nat, h: nat) {
    Shaped(f1.image, w, h) && Shaped(f2.image, w, h)
  }

  /** The warnings for columns 0 .. n-1 of row y of the files at position k, left to right. */
  function RowMismatches(k: nat, f1: ImageFile, f2: ImageFile, w: nat, h: nat, y: nat, n: nat): seq<Mismatch>
    requires Comparable(f1, f2, w, h) && y < h && n <= w
  {
    if n == 0 then []
    else
      var x := n - 1;
      var px1, px2 := f1.image.rows[y][x], f2.image.rows[y][x];
      RowMismatches(k, f1, f2, w, h, y, n - 1) +
        (if px1 != px2 then [Mismatch(k, y, x, f1.name, f2.name, px1, px2)] else [])
  }

  /** The warnings for rows 0 .. n-1 of the files at position k, top to bottom. */
  function ImageMismatches(k: nat, f1: ImageFile, f2: ImageFile, w: nat, h: nat, n: nat): seq<Mismatch>
    requires Comparable(f1, f2, w, h) && n <= h
  {
    if n == 0 then []
    else ImageMismatches(k, f1, f2, w, h, n - 1) + RowMismatches(k, f1, f2, w, h, n - 1, w)
  }

  /** The warnings for the files at positions 0 .. n-1, in order. */
  function AllMismatches(fs1: seq<ImageFile>, fs2: seq<ImageFile>, w: nat, h: nat, n: nat): seq<Mismatch>
    requires n <= |fs1| && n <= |fs2|
    requires forall k | 0 <= k < n :: Comparable(fs1[k], fs2[k], w, h)
  {
    if n == 0 then []
    else AllMismatches(fs1, fs2, w, h, n - 1) + ImageMismatches(n - 1, fs1[n - 1], fs2[n - 1], w, h, h)
  }

  /** Joining two scan-ordered runs, the first wholly before the second, keeps scan order. */
  lemma ConcatInScanOrder(a: seq<Mismatch>, b: seq<Mismatch>)
    requires InScanOrder(a) && InScanOrder(b)
    requires forall i, j | 0 <= i < |a| && 0 <= j < |b| :: Before(a[i], b[j])
    ensures InScanOrder(a + b)
  {
    var ab := a + b;
    forall i, j | 0 <= i < j < |ab|
      ensures Before(ab[i], ab[j])
    {
      if j < |a| {
        assert Before(a[i], a[j]);
      } else if i >= |a| {
        assert Before(b[i - |a|], b[j - |a|]);
      } else {
        assert Before(a[i], b[j - |a|]);
      }
    }
  }

  /** A row reports exactly the columns below n where the two pixels differ, left to right. */
  lemma {:induction false} RowMismatchesSpec(k: nat, f1: ImageFile, f2: ImageFile, w: nat, h: nat, y: nat, n: nat)
    requires Comparable(f1, f2, w, h) && y < h && n <= w
    ensures forall m :: m in RowMismatches(k, f1, f2, w, h, y, n) <==> Reported(k, f1, f2, m) && m.y == y && m.x < n
    ensures InScanOrder(RowMismatches(k, f1, f2, w, h, y, n))
  {
    if n > 0 {
      RowMismatchesSpec(k, f1, f2, w, h, y, n - 1);
      var init := RowMismatches(k, f1, f2, w, h, y, n - 1);
      var px1, px2 := f1.image.rows[y][n - 1], f2.image.rows[y][n - 1];
      var last := if px1 != px2 then [Mismatch(k, y, n - 1, f1.name, f2.name, px1, px2)] else [];
      forall i, j | 0 <= i < |init| && 0 <= j < |last|
        ensures Before(init[i], last[j])
      {
        assert init[i] in init;
      }
      ConcatInScanOrder(init, last);
    }
  }

  /** An image reports exactly the pixels in rows below n where the two pixels differ, in
      row-major order. */
  lemma {:induction false} ImageMismatchesSpec(k: nat, f1: ImageFile, f2: ImageFile, w: nat, h: nat, n: nat)
    requires Comparable(f1, f2, w, h) && n <= h
    ensures forall m :: m in ImageMismatches(k, f1, f2, w, h, n) <==> Reported(k, f1, f2, m) && m.y < n
    ensures InScanOrder(ImageMismatches(k, f1, f2, w, h, n))
  {
    if n > 0 {
      ImageMismatchesSpec(k, f1, f2, w, h, n - 1);
      RowMismatchesSpec(k, f1, f2, w, h, n - 1, w);
      var init := ImageMismatches(k, f1, f2, w, h, n - 1);
      var row := RowMismatches(k, f1, f2, w, h, n - 1, w);
      forall i, j | 0 <= i < |init| && 0 <= j < |row|
        ensures Before(init[i], row[j])
      {
        assert init[i] in init && row[j] in row;
      }
      ConcatInScanOrder(init, row);
    }
  }

  /** The comparison of positions 0 .. n-1 reports every differing pixel of those frames and
      nothing else, each once, in scan order. */
  lemma {:induction false} AllMismatchesSpec(fs1: seq<ImageFile>, fs2: seq<ImageFile>, w: nat, h: nat, n: nat)
    requires n <= |fs1| && n <= |fs2|
    requires forall k | 0 <= k < n :: Comparable(fs1[k], fs2[k], w, h)
    ensures forall m :: m in AllMismatches(fs1, fs2, w, h, n) <==>
      m.frame < n && Reported(m.frame, fs1[m.frame], fs2[m.frame], m)
    ensures InScanOrder(AllMismatches(fs1, fs2, w, h, n))
  {
    if n > 0 {
      AllMismatchesSpec(fs1, fs2, w, h, n - 1);
      ImageMismatchesSpec(n - 1, fs1[n - 1], fs2[n - 1], w, h, h);
      var init := AllMismatches(fs1, fs2, w, h, n - 1);
      var frame := ImageMismatches(n - 1, fs1[n - 1], fs2[n - 1], w, h, h);
      forall i, j | 0 <= i < |init| && 0 <= j < |frame|
        ensures Before(init[i], frame[j])
      {
        assert init[i] in init && frame[j] in frame;
      }
      ConcatInScanOrder(init, frame);
    }
  }

  lemma {:induction false} EqualRowsNoMismatches(k: nat, f1: ImageFile, f2: ImageFile, w: nat, h: nat, y: nat, n: nat)
    requires Comparable(f1, f2, w, h) && y < h && n <= w && f1.image == f2.image
    ensures RowMismatches(k, f1, f2, w, h, y, n) == []
  {
    if n > 0 {
      EqualRowsNoMismatches(k, f1, f2, w, h, y, n - 1);
    }
  }

  lemma {:induction false} EqualImagesNoMismatches(k: nat, f1: ImageFile, f2: ImageFile, w: nat, h: nat, n: nat)
    requires Comparable(f1, f2, w, h) && n <= h && f1.image == f2.image
    ensures ImageMismatches(k, f1, f2, w, h, n) == []
  {
    if n > 0 {
      EqualImagesNoMismatches(k, f1, f2, w, h, n - 1);
      EqualRowsNoMismatches(k, f1, f2, w, h, n - 1, w);
    }
  }

  /** Identical frames produce no warnings. */
  lemma {:induction false} NoMismatchesForEqual(fs1: seq<ImageFile>, fs2: seq<ImageFile>, w: nat, h: nat, n: nat)
    requires n <= |fs1| && n <= |fs2|
    requires forall k | 0 <= k < n :: Comparable(fs1[k], fs2[k], w, h)
    requires forall k | 0 <= k < n :: fs1[k].image == fs2[k].image
    ensures AllMismatches(fs1, fs2, w, h, n) == []
  {
    if n > 0 {
      NoMismatchesForEqual(fs1, fs2, w, h, n - 1);
      EqualImagesNoMismatches(n - 1, fs1[n - 1], fs2[n - 1], w, h, h);
    }
  }

  /** The pixel (y, x) exists in both files and differs. */
  predicate Differs(f1: ImageFile, f2: ImageFile, y: nat, x: nat) {
    && y < |f1.image.rows| && y < |f2.image.rows|
    && x < |f1.image.rows[y]| && x < |f2.image.rows[y]|
    && f1.image.rows[y][x] != f2.image.rows[y][x]
  }

  /** A report in scan order repeats no warning: as many warnings as distinct ones. */
  lemma {:induction false} ScanOrderDistinct(ms: seq<Mismatch>)
    requires InScanOrder(ms)
    ensures |set e | e in ms| == |ms|
  {
    if |ms| > 0 {
      var rest := ms[1..];
      assert InScanOrder(rest) by {
        forall i, j | 0 <= i < j < |rest|
          ensures Before(rest[i], rest[j])
        {
          assert Before(ms[i + 1], ms[j + 1]);
        }
      }
      ScanOrderDistinct(rest);
      assert ms[0] !in rest by {
        forall j | 0 <= j < |rest|
          ensures rest[j] != ms[0]
        {
          assert Before(ms[0], ms[j + 1]);
        }
      }
      assert (set e | e in ms) == {ms[0]} + (set e | e in rest);
    }
  }

  /** A scan-ordered report that holds `m` and nothing else is just `[m]`. */
  lemma OnlyEntry(ms: seq<Mismatch>, m: Mismatch)
    requires InScanOrder(ms) && m in ms
    requires forall e | e in ms :: e == m
    ensures ms == [m]
  {
    assert (set e | e in ms) == {m};
    ScanOrderDistinct(ms);
    assert ms[0] in ms;
  }

  /** Two sequences that differ in exactly one pixel, (y, x) of the frames at position k, are
      reported by exactly one warning, carrying that position and the two pixel values. */
  lemma OneDifferingPixel(fs1: seq<ImageFile>, fs2: seq<ImageFile>, w: nat, h: nat, n: nat, k: nat, y: nat, x: nat)
    requires n <= |fs1| && n <= |fs2|
    requires forall j | 0 <= j < n :: Comparable(fs1[j], fs2[j], w, h)
    requires k < n && Differs(fs1[k], fs2[k], y, x)
    requires forall j, yy, xx | 0 <= j < n && Differs(fs1[j], fs2[j], yy, xx) :: j == k && yy == y && xx == x
    ensures AllMismatches(fs1, fs2, w, h, n) ==
      [Mismatch(k, y, x, fs1[k].name, fs2[k].name, fs1[k].image.rows[y][x], fs2[k].image.rows[y][x])]
  {
    AllMismatchesSpec(fs1, fs2, w, h, n);
    var m := Mismatch(k, y, x, fs1[k].name, fs2[k].name, fs1[k].image.rows[y][x], fs2[k].image.rows[y][x]);
    var ms := AllMismatches(fs1, fs2, w, h, n);
    assert Reported(k, fs1[k], fs2[k], m);
    forall e | e in ms
      ensures e == m
    {
      assert Differs(fs1[e.frame], fs2[e.frame], e.y, e.x);
    }
    OnlyEntry(ms, m);
  }

  /** Scan one pair of frames, row by row and column by column, reporting every difference. */
  method CompareImages(k: nat, f1: ImageFile, f2: ImageFile, width: nat, height: nat) returns (ms: seq<Mismatch>)
    requires Comparable(f1, f2, width, height)
    ensures ms == ImageMismatches(k, f1, f2, width, height, height)
  {
    ms := [];
    for y := 0 to height
      invariant ms == ImageMismatches(k, f1, f2, width, height, y)
    {
      for x := 0 to width
        invariant ms == ImageMismatches(k, f1, f2, width, height, y) + RowMismatches(k, f1, f2, width, height, y, x)
      {
        var px1 := f1.image.rows[y][x];
        var px2 := f2.image.rows[y][x];
        if px1 != px2 {
          ms := ms + [Mismatch(k, y, x, f1.name, f2.name, px1, px2)];
        }
      }
    }
  }

  /** The loop of `compare` over positions 0 .. n-1 of both lists. */
  method ScanFrames(fs1: seq<ImageFile>, fs2: seq<ImageFile>, width: nat, height: nat, n: nat) returns (ms: seq<Mismatch>)
    requires n <= |fs1| && n <= |fs2|
    requires forall k | 0 <= k < n :: Comparable(fs1[k], fs2[k], width, height)
    ensures ms == AllMismatches(fs1, fs2, width, height, n)
  {
    ms := [];
    for i := 0 to n
      invariant ms == AllMismatches(fs1, fs2, width, height, i)
    {
      var frame := CompareImages(i, fs1[i], fs2[i], width, height);
      ms := ms + frame;
    }
  }

  /** After sorting, the files at each shared position of the two lists have the size of the
      first list's frame 0. */
  lemma SortedComparable(listing1: seq<ImageFile>, listing2: seq<ImageFile>)
    requires SameSize(Catalog.PngFiles(listing1) + Catalog.PngFiles(listing2))
    requires Catalog.SortedPngList(listing1).Ok? && Catalog.SortedPngList(listing2).Ok?
    requires |Catalog.SortedPngList(listing1).value| > 0
    ensures var fs1, fs2 := Catalog.SortedPngList(listing1).value, Catalog.SortedPngList(listing2).value;
      forall k | 0 <= k < |fs1| && k < |fs2| :: Comparable(fs1[k], fs2[k], fs1[0].image.width, fs1[0].image.height)
  {
    var fs1, fs2 := Catalog.SortedPngList(listing1).value, Catalog.SortedPngList(listing2).value;
    Catalog.SortedPngListElements(listing1);
    Catalog.SortedPngListElements(listing2);
    var both, pngs := fs1 + fs2, Catalog.PngFiles(listing1) + Catalog.PngFiles(listing2);
    forall g | g in both
      ensures g in pngs
    {
      if g in fs1 {
        assert g in Catalog.PngFiles(listing1);
      } else {
        assert g in Catalog.PngFiles(listing2);
      }
    }
    SameSizeOfElements(pngs, both);
    forall k | 0 <= k < |fs1| && k < |fs2|
      ensures Comparable(fs1[k], fs2[k], fs1[0].image.width, fs1[0].image.height)
    {
      assert both[k] == fs1[k] && both[|fs1| + k] == fs2[k] && both[0] == fs1[0];
    }
  }

  /** `compare` over two directory listings. A sort failure of either listing ends it with no
      warnings; an empty first list fails where its frame 0 is probed; a second list shorter than
      the first fails at the first position it lacks, after the warnings for the positions before
      it; otherwise every position of the first list is compared with the same position of the
      second. The size is probed from the first list's frame 0. */
  method Compare(listing1: seq<ImageFile>, listing2: seq<ImageFile>) returns (report: Report)
    requires SameSize(Catalog.PngFiles(listing1) + Catalog.PngFiles(listing2))
    ensures Catalog.SortedPngList(listing1).Err? ==>
      report == Report([], Some(Catalog.SortedPngList(listing1).error))
    ensures Catalog.SortedPngList(listing1).Ok? && Catalog.SortedPngList(listing2).Err? ==>
      report == Report([], Some(Catalog.SortedPngList(listing2).error))
    ensures Catalog.SortedPngList(listing1).Ok? && Catalog.SortedPngList(listing2).Ok? ==>
      var fs1, fs2 := Catalog.SortedPngList(listing1).value, Catalog.SortedPngList(listing2).value;
      && (|fs1| == 0 ==> report == Report([], Some(IndexOutOfBounds(0))))
      && (|fs1| > 0 ==>
        var w, h, n := fs1[0].image.width, fs1[0].image.height, if |fs2| < |fs1| then |fs2| else |fs1|;
        && (forall k | 0 <= k < n :: Comparable(fs1[k], fs2[k], w, h))
        && report.mismatches == AllMismatches(fs1, fs2, w, h, n)
        && report.failure == if |fs2| < |fs1| then Some(IndexOutOfBounds(|fs2|)) else None)
  {
    var listed1 := Catalog.SortedPngList(listing1);
    if listed1.Err? {
      return Report([], Some(listed1.error));
    }
    var listed2 := Catalog.SortedPngList(listing2);
    if listed2.Err? {
      return Report([], Some(listed2.error));
    }
    var fs1, fs2 := listed1.value, listed2.value;
    if |fs1| == 0 {
      return Report([], Some(IndexOutOfBounds(0)));
    }
    SortedComparable(listing1, listing2);
    var width, height := fs1[0].image.width, fs1[0].image.height;
    if |fs2| < |fs1| {
      var ms := ScanFrames(fs1, fs2, width, height, |fs2|);
      return Report(ms, Some(IndexOutOfBounds(|fs2|)));
    }
    var ms := ScanFrames(fs1, fs2, width, height, |fs1|);
    return Report(ms, None);
  }
}

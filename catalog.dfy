/** `sortedPNGImageList`: the `.png` files of a directory listing, stably sorted by the integer value
    of the first run of decimal digits in each name (the group of the pattern `.*?(\d+).*`). */
module Catalog {
  import opened Frames

  /** `name.endsWith(".png")`, case-sensitive. */
  predicate IsPng(name: string) {
    |name| >= 4 && name[|name| - 4..] == ".png"
  }

  /** The listing filtered to `.png` names, in listing order. */
  function PngFiles(listing: seq<ImageFile>): (pngs: seq<ImageFile>)
    ensures |pngs| <= |listing|
    ensures forall f :: f in pngs <==> f in listing && IsPng(f.name)
  {
    if |listing| == 0 then []
    else (if IsPng(listing[0].name) then [listing[0]] else []) + PngFiles(listing[1..])
  }

  /** `\d` without the UNICODE_CHARACTER_CLASS flag: ASCII digits only. */
  predicate IsDigit(c: char) {
    '0' <= c <= '9'
  }

  /** The characters that `.` does not match in a Java pattern compiled without DOTALL. */
  predicate IsLineTerminator(c: char) {
    c == '\n' || c == '\r' || c == '\U{85}' || c == '\U{2028}' || c == '\U{2029}'
  }

  predicate AllDigits(s: string) {
    forall i | 0 <= i < |s| :: IsDigit(s[i])
  }

  predicate NoDigits(s: string) {
    forall i | 0 <= i < |s| :: !IsDigit(s[i])
  }

  predicate NoLineTerminator(s: string) {
    forall i | 0 <= i < |s| :: !IsLineTerminator(s[i])
  }

  /** `Integer.parseInt` of a run of decimal digits (unbounded: see README). */
  function Value(ds: string): nat
    requires AllDigits(ds)
  {
    if |ds| == 0 then 0 else Value(ds[..|ds| - 1]) * 10 + (ds[|ds| - 1] as int - '0' as int)
  }

  /** The longest prefix of `s` made of digits. */
  function LeadingDigits(s: string): (ds: string)
    ensures AllDigits(ds) && ds <= s
    ensures |ds| < |s| ==> !IsDigit(s[|ds|])
  {
    if |s| == 0 || !IsDigit(s[0]) then [] else [s[0]] + LeadingDigits(s[1..])
  }

  /** The value of the first maximal run of digits, if there is a digit at all. */
  function FirstRun(s: string): Option<nat> {
    if |s| == 0 then None
    else if IsDigit(s[0]) then Some(Value(LeadingDigits(s)))
    else FirstRun(s[1..])
  }

  /** `group(1)` of `.*?(\d+).*` parsed as an integer, or None when `matches()` fails: the name
      has no digit, or it holds a line terminator, which neither `.*?` nor `.*` can cross. */
  function FirstNumber(name: string): Option<nat> {
    if exists i | 0 <= i < |name| :: IsLineTerminator(name[i]) then None else FirstRun(name)
  }

  /** The sort key; only consulted when every name has one (or there is at most one name). */
  function Key(f: ImageFile): nat {
    match FirstNumber(f.name)
    case Some(n) => n
    case None => 0
  }

  /** Ascending by key: the order that the comparator `n1 - n2` gives (both keys are non-negative,
      so the subtraction cannot overflow). */
  predicate SortedByKey(s: seq<ImageFile>) {
    forall i, j | 0 <= i < j < |s| :: Key(s[i]) <= Key(s[j])
  }

  /** The elements of `s` whose key is `k`, in the order of `s`. */
  function WithKey(s: seq<ImageFile>, k: nat): seq<ImageFile> {
    if |s| == 0 then []
    else (if Key(s[0]) == k then [s[0]] else []) + WithKey(s[1..], k)
  }

  /** Inserts `f` in front of the first element whose key is not below `f`'s. */
  function Insert(f: ImageFile, s: seq<ImageFile>): seq<ImageFile> {
    if |s| == 0 || Key(f) <= Key(s[0]) then [f] + s else [s[0]] + Insert(f, s[1..])
  }

  /** A stable sort by key (insertion sort). */
  function StableSort(s: seq<ImageFile>): seq<ImageFile> {
    if |s| == 0 then [] else Insert(s[0], StableSort(s[1..]))
  }

  /** `sortedPNGImageList`. With two or more `.png` names the sort compares every one of them, so
      a single name without a digit run makes the comparator throw and nothing is returned; with
      zero or one name the comparator is never called. */
  function SortedPngList(listing: seq<ImageFile>): Result<seq<ImageFile>> {
    var pngs := PngFiles(listing);
    if |pngs| >= 2 && exists i | 0 <= i < |pngs| :: FirstNumber(pngs[i].name).None? then
      Err(NoNumberMatch)
    else
      Ok(StableSort(pngs))
  }

  // ----- the numeric key -----

  lemma {:induction false} LeadingDigitsOf(ds: string, rest: string)
    requires AllDigits(ds) && (|rest| == 0 || !IsDigit(rest[0]))
    ensures LeadingDigits(ds + rest) == ds
  {
    if |ds| > 0 {
      assert (ds + rest)[1..] == ds[1..] + rest;
      LeadingDigitsOf(ds[1..], rest);
    } else {
      assert ds + rest == rest;
    }
  }

  lemma {:induction false} FirstRunOf(pre: string, ds: string, rest: string)
    requires NoDigits(pre) && |ds| >= 1 && AllDigits(ds) && (|rest| == 0 || !IsDigit(rest[0]))
    ensures FirstRun(pre + ds + rest) == Some(Value(ds))
  {
    if |pre| == 0 {
      assert pre + ds + rest == ds + rest;
      LeadingDigitsOf(ds, rest);
    } else {
      assert (pre + ds + rest)[1..] == pre[1..] + ds + rest;
      FirstRunOf(pre[1..], ds, rest);
    }
  }

  /** The key is what the pattern captures: for a name without line terminators that splits into
      a digit-free prefix, a maximal digit run and the rest, the key is the run's value. */
  lemma FirstNumberOf(pre: string, ds: string, rest: string)
    requires NoDigits(pre) && |ds| >= 1 && AllDigits(ds) && (|rest| == 0 || !IsDigit(rest[0]))
    requires NoLineTerminator(pre + ds + rest)
    ensures FirstNumber(pre + ds + rest) == Some(Value(ds))
  {
    FirstRunOf(pre, ds, rest);
  }

  lemma {:induction false} FirstRunNone(s: string)
    ensures FirstRun(s).None? <==> NoDigits(s)
  {
    if |s| > 0 {
      FirstRunNone(s[1..]);
      assert forall i | 1 <= i < |s| :: s[i] == s[1..][i - 1];
    }
  }

  /** A name has no key exactly when it has no digit or holds a line terminator. */
  lemma FirstNumberNone(name: string)
    ensures FirstNumber(name).None? <==> NoDigits(name) || !NoLineTerminator(name)
  {
    FirstRunNone(name);
  }

  // ----- the sort -----

  lemma {:induction false} InsertPermutes(f: ImageFile, s: seq<ImageFile>)
    ensures multiset(Insert(f, s)) == multiset(s) + multiset{f}
  {
    if |s| > 0 && Key(f) > Key(s[0]) {
      InsertPermutes(f, s[1..]);
      assert s == [s[0]] + s[1..];
    }
  }

  lemma {:induction false} InsertSorted(f: ImageFile, s: seq<ImageFile>)
    requires SortedByKey(s)
    ensures SortedByKey(Insert(f, s))
  {
    if |s| > 0 && Key(f) > Key(s[0]) {
      InsertSorted(f, s[1..]);
      InsertPermutes(f, s[1..]);
      var r := Insert(f, s[1..]);
      forall i | 0 <= i < |r|
        ensures Key(s[0]) <= Key(r[i])
      {
        assert r[i] in multiset(r);
        assert r[i] in multiset(s[1..]) + multiset{f};
        if r[i] != f {
          assert r[i] in s[1..];
        }
      }
    }
  }

  lemma {:induction false} WithKeyConcat(a: seq<ImageFile>, b: seq<ImageFile>, k: nat)
    ensures WithKey(a + b, k) == WithKey(a, k) + WithKey(b, k)
  {
    if |a| > 0 {
      assert (a + b)[1..] == a[1..] + b;
      WithKeyConcat(a[1..], b, k);
    } else {
      assert a + b == b;
    }
  }

  /** `f` goes in front of every element with its own key, so each key's elements keep their order. */
  lemma {:induction false} InsertWithKey(f: ImageFile, s: seq<ImageFile>, k: nat)
    ensures WithKey(Insert(f, s), k) == WithKey([f], k) + WithKey(s, k)
  {
    if |s| == 0 || Key(f) <= Key(s[0]) {
      WithKeyConcat([f], s, k);
    } else {
      InsertWithKey(f, s[1..], k);
      WithKeyConcat([s[0]], Insert(f, s[1..]), k);
      WithKeyConcat([s[0]], s[1..], k);
      assert [s[0]] + s[1..] == s;
      if Key(f) == k {
        assert Key(s[0]) != k;
      }
    }
  }

  /** The sort is ascending by key, a permutation of its input, and stable: the elements of each
      key come out in their input order. */
  lemma {:induction false} StableSortSpec(s: seq<ImageFile>)
    ensures SortedByKey(StableSort(s))
    ensures multiset(StableSort(s)) == multiset(s)
    ensures forall k: nat :: WithKey(StableSort(s), k) == WithKey(s, k)
  {
    if |s| > 0 {
      StableSortSpec(s[1..]);
      InsertSorted(s[0], StableSort(s[1..]));
      InsertPermutes(s[0], StableSort(s[1..]));
      assert s == [s[0]] + s[1..];
      forall k: nat
        ensures WithKey(StableSort(s), k) == WithKey(s, k)
      {
        InsertWithKey(s[0], StableSort(s[1..]), k);
        WithKeyConcat([s[0]], s[1..], k);
      }
    }
  }

  lemma {:induction false} WithKeyNonEmpty(s: seq<ImageFile>, k: nat)
    requires |WithKey(s, k)| > 0
    ensures exists i | 0 <= i < |s| :: Key(s[i]) == k
  {
    if Key(s[0]) != k {
      WithKeyNonEmpty(s[1..], k);
      var i :| 0 <= i < |s[1..]| && Key(s[1..][i]) == k;
      assert Key(s[i + 1]) == k;
    }
  }

  lemma KeyPresent(s: seq<ImageFile>)
    requires |s| > 0
    ensures WithKey(s, Key(s[0])) != []
  {
  }

  /** Ascending order together with each key's elements determines a sequence: two sequences
      sorted by key that agree on every key's elements are equal. */
  lemma {:induction false} SortedDeterminedByKeys(r1: seq<ImageFile>, r2: seq<ImageFile>)
    requires SortedByKey(r1) && SortedByKey(r2)
    requires forall k: nat :: WithKey(r1, k) == WithKey(r2, k)
    ensures r1 == r2
    decreases |r1| + |r2|
  {
    if |r1| == 0 && |r2| == 0 {
    } else if |r1| == 0 {
      KeyPresent(r2);
      assert false;
    } else if |r2| == 0 {
      KeyPresent(r1);
      assert false;
    } else {
      var k1, k2 := Key(r1[0]), Key(r2[0]);
      WithKeyNonEmpty(r2, k1);
      WithKeyNonEmpty(r1, k2);
      assert k1 == k2;
      assert WithKey(r1, k1)[0] == r1[0];
      assert WithKey(r2, k1)[0] == r2[0];
      forall k: nat
        ensures WithKey(r1[1..], k) == WithKey(r2[1..], k)
      {
        if k == k1 {
          assert WithKey(r1[1..], k) == WithKey(r1, k)[1..];
          assert WithKey(r2[1..], k) == WithKey(r2, k)[1..];
        } else {
          assert WithKey(r1[1..], k) == WithKey(r1, k);
          assert WithKey(r2[1..], k) == WithKey(r2, k);
        }
      }
      SortedDeterminedByKeys(r1[1..], r2[1..]);
      assert r1 == [r1[0]] + r1[1..];
      assert r2 == [r2[0]] + r2[1..];
    }
  }

  /** Any stable sort by key (the library's merge sort included) returns what `StableSort` does. */
  lemma StableSortUnique(s: seq<ImageFile>, r: seq<ImageFile>)
    requires SortedByKey(r) && forall k: nat :: WithKey(r, k) == WithKey(s, k)
    ensures r == StableSort(s)
  {
    StableSortSpec(s);
    SortedDeterminedByKeys(r, StableSort(s));
  }

  /** A sequence already in key order is left as it is. */
  lemma StableSortOfSorted(s: seq<ImageFile>)
    requires SortedByKey(s)
    ensures StableSort(s) == s
  {
    StableSortUnique(s, s);
  }

  /** What `sortedPNGImageList` returns: on success, the `.png` files of the listing in ascending
      key order, as a permutation that keeps equal keys in listing order; it fails with
      "no number match" exactly when there are two or more `.png` names and one has no key. */
  lemma SortedPngListSpec(listing: seq<ImageFile>)
    ensures var pngs := PngFiles(listing);
      SortedPngList(listing).Err? <==>
        |pngs| >= 2 && exists f | f in pngs :: FirstNumber(f.name).None?
    ensures SortedPngList(listing).Err? ==> SortedPngList(listing).error == NoNumberMatch
    ensures SortedPngList(listing).Ok? ==>
      var fs := SortedPngList(listing).value;
      && SortedByKey(fs)
      && multiset(fs) == multiset(PngFiles(listing))
      && (forall k: nat :: WithKey(fs, k) == WithKey(PngFiles(listing), k))
      && (forall f | f in fs :: f in listing && IsPng(f.name))
  {
    SortedPngListFails(listing);
    if SortedPngList(listing).Ok? {
      var pngs := PngFiles(listing);
      StableSortSpec(pngs);
      StableSortElements(pngs);
    }
  }

  lemma SortedPngListFails(listing: seq<ImageFile>)
    ensures var pngs := PngFiles(listing);
      SortedPngList(listing).Err? <==>
        |pngs| >= 2 && exists f | f in pngs :: FirstNumber(f.name).None?
    ensures SortedPngList(listing).Err? ==> SortedPngList(listing).error == NoNumberMatch
  {
    var pngs := PngFiles(listing);
    if exists f | f in pngs :: FirstNumber(f.name).None? {
      var f :| f in pngs && FirstNumber(f.name).None?;
      var i :| 0 <= i < |pngs| && pngs[i] == f;
    }
  }

  lemma StableSortElements(s: seq<ImageFile>)
    ensures forall f | f in StableSort(s) :: f in s
  {
    StableSortSpec(s);
    forall f | f in StableSort(s)
      ensures f in s
    {
      assert f in multiset(StableSort(s));
    }
  }

  /** Every file of a successful listing is one of the listing's `.png` files. */
  lemma SortedPngListElements(listing: seq<ImageFile>)
    requires SortedPngList(listing).Ok?
    ensures forall f | f in SortedPngList(listing).value :: f in PngFiles(listing)
  {
    StableSortElements(PngFiles(listing));
  }

  /** No two files share a key. */
  predicate DistinctKeys(s: seq<ImageFile>) {
    forall i, j | 0 <= i < j < |s| :: Key(s[i]) != Key(s[j])
  }

  /** Files with the same key are the same file: the form of `DistinctKeys` that does not depend
      on the order of the sequence. */
  predicate KeysIdentify(s: seq<ImageFile>) {
    forall f, g | f in s && g in s && Key(f) == Key(g) :: f == g
  }

  lemma DistinctKeysIdentify(s: seq<ImageFile>)
    requires DistinctKeys(s)
    ensures KeysIdentify(s)
  {
    forall f, g | f in s && g in s && Key(f) == Key(g)
      ensures f == g
    {
      var i :| 0 <= i < |s| && s[i] == f;
      var j :| 0 <= j < |s| && s[j] == g;
      assert i == j;
    }
  }

  /** Filtering to `.png` names keeps each `.png` file as many times as the listing holds it. */
  lemma {:induction false} PngFilesCount(listing: seq<ImageFile>, f: ImageFile)
    ensures multiset(PngFiles(listing))[f] == if IsPng(f.name) then multiset(listing)[f] else 0
  {
    if |listing| > 0 {
      PngFilesCount(listing[1..], f);
      assert listing == [listing[0]] + listing[1..];
    }
  }

  /** Two listings of the same files, in whatever order, hold the same `.png` files. */
  lemma PngFilesPermuted(l1: seq<ImageFile>, l2: seq<ImageFile>)
    requires multiset(l1) == multiset(l2)
    ensures multiset(PngFiles(l1)) == multiset(PngFiles(l2))
  {
    forall f
      ensures multiset(PngFiles(l1))[f] == multiset(PngFiles(l2))[f]
    {
      PngFilesCount(l1, f);
      PngFilesCount(l2, f);
    }
  }

  /** Two sequences sorted by key that hold the same files are equal when a key names one file. */
  lemma {:induction false} SortedPermutationEqual(r1: seq<ImageFile>, r2: seq<ImageFile>)
    requires SortedByKey(r1) && SortedByKey(r2)
    requires multiset(r1) == multiset(r2) && KeysIdentify(r1)
    ensures r1 == r2
  {
    assert |r1| == |multiset(r1)| == |multiset(r2)| == |r2|;
    if |r1| > 0 {
      SameHead(r1, r2);
      SameTail(r1, r2);
      SortedPermutationEqual(r1[1..], r2[1..]);
      assert r1 == [r1[0]] + r1[1..] && r2 == [r2[0]] + r2[1..];
    }
  }

  /** Both smallest keys are the smallest key of the common files, which names one file. */
  lemma SameHead(r1: seq<ImageFile>, r2: seq<ImageFile>)
    requires SortedByKey(r1) && SortedByKey(r2) && |r1| > 0 && |r2| > 0
    requires multiset(r1) == multiset(r2) && KeysIdentify(r1)
    ensures r1[0] == r2[0]
  {
    assert r1[0] in multiset(r2) && r2[0] in multiset(r1);
    var j :| 0 <= j < |r2| && r2[j] == r1[0];
    var i :| 0 <= i < |r1| && r1[i] == r2[0];
    assert Key(r2[0]) <= Key(r2[j]) && Key(r1[0]) <= Key(r1[i]);
  }

  lemma SameTail(r1: seq<ImageFile>, r2: seq<ImageFile>)
    requires SortedByKey(r1) && SortedByKey(r2) && |r1| > 0 && |r2| > 0 && r1[0] == r2[0]
    requires multiset(r1) == multiset(r2) && KeysIdentify(r1)
    ensures SortedByKey(r1[1..]) && SortedByKey(r2[1..])
    ensures multiset(r1[1..]) == multiset(r2[1..]) && KeysIdentify(r1[1..])
  {
    TailMultiset(r1);
    TailMultiset(r2);
    forall f, g | f in r1[1..] && g in r1[1..] && Key(f) == Key(g)
      ensures f == g
    {
      assert f in r1 && g in r1;
    }
  }

  lemma TailMultiset(s: seq<ImageFile>)
    requires |s| > 0
    ensures multiset(s[1..]) == multiset(s) - multiset{s[0]}
  {
    assert s == [s[0]] + s[1..];
  }

  /** The order in which the directory is listed does not matter when no number is repeated:
      two listings of the same files sort alike, and fail alike. */
  lemma ListingOrderIrrelevant(l1: seq<ImageFile>, l2: seq<ImageFile>)
    requires multiset(l1) == multiset(l2)
    requires KeysIdentify(PngFiles(l1))
    ensures SortedPngList(l1) == SortedPngList(l2)
  {
    var p1, p2 := PngFiles(l1), PngFiles(l2);
    PngFilesPermuted(l1, l2);
    assert |p1| == |multiset(p1)| == |multiset(p2)| == |p2|;
    SortedPngListFails(l1);
    SortedPngListFails(l2);
    assert forall f :: f in p1 <==> f in p2 by {
      forall f
        ensures f in p1 <==> f in p2
      {
        assert f in p1 <==> f in multiset(p1);
        assert f in p2 <==> f in multiset(p2);
      }
    }
    if SortedPngList(l1).Ok? {
      StableSortSpec(p1);
      StableSortSpec(p2);
      StableSortElements(p1);
      SortedPermutationEqual(StableSort(p1), StableSort(p2));
    }
  }

  /** When every `.png` name has a key, the listing sorts without failing. */
  lemma SortedPngListKeyed(listing: seq<ImageFile>)
    requires forall f | f in PngFiles(listing) :: FirstNumber(f.name).Some?
    ensures SortedPngList(listing) == Ok(StableSort(PngFiles(listing)))
  {
    var pngs := PngFiles(listing);
    assert forall i | 0 <= i < |pngs| :: pngs[i] in pngs;
  }

  lemma KeyImg2()
    ensures FirstNumber("img2.png") == Some(2)
  {
    FirstNumberOf("img", "2", ".png");
    assert "img" + "2" + ".png" == "img2.png";
  }

  lemma KeyImg10()
    ensures FirstNumber("img10.png") == Some(10)
  {
    FirstNumberOf("img", "10", ".png");
    assert "img" + "10" + ".png" == "img10.png";
    assert Value("10") == 10;
  }

  lemma KeyImg1()
    ensures FirstNumber("img1.png") == Some(1)
  {
    FirstNumberOf("img", "1", ".png");
    assert "img" + "1" + ".png" == "img1.png";
  }

  /** `img2.png, img10.png, img1.png` come out as `img1.png, img2.png, img10.png`: numeric, not
      lexicographic, order. */
  lemma NumericOrder(a: Image, b: Image, c: Image)
    ensures SortedPngList([ImageFile("img2.png", a), ImageFile("img10.png", b), ImageFile("img1.png", c)])
         == Ok([ImageFile("img1.png", c), ImageFile("img2.png", a), ImageFile("img10.png", b)])
  {
    var f2, f10, f1 := ImageFile("img2.png", a), ImageFile("img10.png", b), ImageFile("img1.png", c);
    var listing := [f2, f10, f1];
    KeyImg2();
    KeyImg10();
    KeyImg1();
    assert Key(f2) == 2 && Key(f10) == 10 && Key(f1) == 1;
    ExamplePngs(f2, f10, f1);
    ExampleSort(f2, f10, f1);
    SortedPngListKeyed(listing);
  }

  lemma ExamplePngs(f2: ImageFile, f10: ImageFile, f1: ImageFile)
    requires f2.name == "img2.png" && f10.name == "img10.png" && f1.name == "img1.png"
    ensures PngFiles([f2, f10, f1]) == [f2, f10, f1]
  {
    assert IsPng(f2.name) && IsPng(f10.name) && IsPng(f1.name);
    assert [f1] == [f1] + [] && [f10, f1] == [f10] + [f1] && [f2, f10, f1] == [f2] + [f10, f1];
    PngStep(f1, []);
    PngStep(f10, [f1]);
    PngStep(f2, [f10, f1]);
  }

  lemma ExampleSort(f2: ImageFile, f10: ImageFile, f1: ImageFile)
    requires Key(f2) == 2 && Key(f10) == 10 && Key(f1) == 1
    ensures StableSort([f2, f10, f1]) == [f1, f2, f10]
  {
    assert [f1] == [f1] + [] && [f10, f1] == [f10] + [f1] && [f2, f10, f1] == [f2] + [f10, f1];
    InsertStep(f1, []);
    InsertStep(f10, [f1]);
    InsertStep(f10, []);
    InsertStep(f2, [f1, f10]);
    InsertStep(f2, [f10]);
    SortStep(f1, []);
    SortStep(f10, [f1]);
    SortStep(f2, [f10, f1]);
    assert StableSort([f1]) == [f1];
    assert StableSort([f10, f1]) == [f1, f10];
  }

  lemma PngStep(f: ImageFile, rest: seq<ImageFile>)
    requires IsPng(f.name)
    ensures PngFiles([f] + rest) == [f] + PngFiles(rest)
  {
    assert ([f] + rest)[1..] == rest;
  }

  lemma InsertStep(f: ImageFile, s: seq<ImageFile>)
    ensures Insert(f, s) == if |s| == 0 || Key(f) <= Key(s[0]) then [f] + s else [s[0]] + Insert(f, s[1..])
  {
  }

  lemma SortStep(f: ImageFile, s: seq<ImageFile>)
    ensures StableSort([f] + s) == Insert(f, StableSort(s))
  {
    assert ([f] + s)[1..] == s;
  }

  /** One `.png` name without digits among others makes the whole listing fail. */
  lemma NoDigitsFails(a: Image, b: Image)
    ensures SortedPngList([ImageFile("noDigitsHere.png", a), ImageFile("img1.png", b)]) == Err(NoNumberMatch)
  {
    var bad, good := ImageFile("noDigitsHere.png", a), ImageFile("img1.png", b);
    var listing := [bad, good];
    KeyNoDigitsHere();
    TwoPngs(bad, good);
    assert FirstNumber(PngFiles(listing)[0].name).None?;
  }

  lemma TwoPngs(bad: ImageFile, good: ImageFile)
    requires bad.name == "noDigitsHere.png" && good.name == "img1.png"
    ensures PngFiles([bad, good]) == [bad, good]
  {
    assert IsPng(bad.name) && IsPng(good.name);
    assert [bad, good] == [bad] + [good] && [good] == [good] + [];
    PngStep(good, []);
    PngStep(bad, [good]);
  }

  lemma KeyNoDigitsHere()
    ensures FirstNumber("noDigitsHere.png").None?
  {
    assert NoDigits("noDigitsHere.png");
    FirstNumberNone("noDigitsHere.png");
  }
}

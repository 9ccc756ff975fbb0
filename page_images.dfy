/** `convertPdfPagesToImages` in index.js: after the PDF has been rasterised into the
    temporary directory, list that directory, keep the `page-*.png` entries, sort them by
    page number and return their full paths; any error yields the empty list. */
module PageImages {
  import opened Wrappers
  import opened Filtering
  import opened PageKey
  import opened PageSort

  /** The directory, next to the module, that receives the rendered pages. */
  const TempDirName: string := "temp_images"
  /** pdf-poppler names its output `<out_prefix>-<page>.png`, with `out_prefix` "page". */
  const PagePrefix: string := "page-"
  const PageSuffix: string := ".png"

  predicate StartsWith(s: string, prefix: string) {
    |prefix| <= |s| && s[..|prefix|] == prefix
  }

  predicate EndsWith(s: string, suffix: string) {
    |suffix| <= |s| && s[|s| - |suffix|..] == suffix
  }

  /** The filter that selects the rendered pages among the directory entries. */
  predicate IsPageImageName(file: string) {
    StartsWith(file, PagePrefix) && EndsWith(file, PageSuffix)
  }

  /** The entries the filter keeps, in listing order. */
  function PageFiles(files: seq<string>): seq<string> {
    Filter(IsPageImageName, files)
  }

  /** What `path.join` puts in front of a plain file name: the directory and one separator. */
  function DirPrefix(dir: string): string {
    if dir == [] then []
    else if dir[|dir| - 1] == '/' then dir
    else dir + "/"
  }

  /** The path lies directly under `dir`'s prefix. */
  predicate InDir(dir: string, path: string) {
    StartsWith(path, DirPrefix(dir))
  }

  /** The file name part of a path under `dir`. */
  function BaseName(dir: string, path: string): string
    requires InDir(dir, path)
  {
    path[|DirPrefix(dir)|..]
  }

  /** `path.join(dir, name)` for a plain file name. */
  function JoinPath(dir: string, name: string): string {
    DirPrefix(dir) + name
  }

  /** The file name can be read back from the joined path. */
  lemma JoinPathBaseName(dir: string, name: string)
    ensures InDir(dir, JoinPath(dir, name)) && BaseName(dir, JoinPath(dir, name)) == name
  {
    assert JoinPath(dir, name)[..|DirPrefix(dir)|] == DirPrefix(dir);
  }

  /** Distinct names give distinct paths. */
  lemma JoinPathInjective(dir: string, a: string, b: string)
    ensures JoinPath(dir, a) == JoinPath(dir, b) <==> a == b
  {
    JoinPathBaseName(dir, a);
    JoinPathBaseName(dir, b);
  }

  /** `path.join(__dirname, 'temp_images')`. */
  function TempDir(moduleDir: string): string {
    JoinPath(moduleDir, TempDirName)
  }

  /** The full path of each name, in the same order. */
  function PagePaths(dir: string, names: seq<string>): (r: seq<string>)
    ensures |r| == |names|
  {
    if names == [] then []
    else PagePaths(dir, names[..|names| - 1]) + [JoinPath(dir, names[|names| - 1])]
  }

  /** The result of `convertPdfPagesToImages`. `listing` is the content of the temporary
      directory once pdf-poppler has run, or None when the conversion or the listing threw. */
  function ConvertedImages(moduleDir: string, listing: Option<seq<string>>): seq<string> {
    match listing
    case None => []
    case Some(files) =>
      var pngFiles := PageFiles(files);
      if Comparable(FirstDigitRun, pngFiles) then
        PagePaths(TempDir(moduleDir), SortByPage(FirstDigitRun, pngFiles))
      else []
  }

  /** The imperative procedure: filter, sort the array in place, push each joined path. */
  method ConvertPdfPagesToImages(moduleDir: string, listing: Option<seq<string>>)
    returns (outputImages: seq<string>)
    ensures outputImages == ConvertedImages(moduleDir, listing)
  {
    outputImages := [];
    var tempDir := TempDir(moduleDir);
    if listing.None? {
      return [];
    }
    var pngFiles := PageFiles(listing.value);
    var a := new string[|pngFiles|](k requires 0 <= k < |pngFiles| => pngFiles[k]);
    assert a[..] == pngFiles;
    var sorted := SortInPlace(FirstDigitRun, a);
    if !sorted {
      return [];
    }
    outputImages := JoinAll(tempDir, a);
  }

  /** The `forEach` that pushes the full path of every sorted name. */
  method JoinAll(dir: string, a: array<string>) returns (paths: seq<string>)
    ensures paths == PagePaths(dir, a[..])
  {
    paths := [];
    var i := 0;
    while i < a.Length
      invariant 0 <= i <= a.Length
      invariant paths == PagePaths(dir, a[..i])
    {
      assert a[..i + 1][..i] == a[..i];
      paths := paths + [JoinPath(dir, a[i])];
      i := i + 1;
    }
    assert a[..a.Length] == a[..];
  }

  // ---------------------------------------------------------------------------------
  // What the result holds

  /** The filter keeps each page image entry as often as it is listed and drops the rest. */
  lemma PageFilesCount(files: seq<string>, f: string)
    ensures multiset(PageFiles(files))[f] == if IsPageImageName(f) then multiset(files)[f] else 0
    ensures f in PageFiles(files) <==> f in files && IsPageImageName(f)
  {
    FilterCount(IsPageImageName, files, f);
  }

  /** The i-th path is the i-th name joined onto the directory. */
  lemma {:induction false} PagePathsAt(dir: string, names: seq<string>, i: nat)
    requires i < |names|
    ensures PagePaths(dir, names)[i] == JoinPath(dir, names[i])
  {
    var n := |names|;
    if i < n - 1 {
      PagePathsAt(dir, names[..n - 1], i);
    }
  }

  /** A path appears as often as its name does. */
  lemma {:induction false} PagePathsCount(dir: string, names: seq<string>, f: string)
    ensures multiset(PagePaths(dir, names))[JoinPath(dir, f)] == multiset(names)[f]
  {
    if names != [] {
      var init, last := names[..|names| - 1], names[|names| - 1];
      var p := JoinPath(dir, f);
      PagePathsCount(dir, init, f);
      JoinPathInjective(dir, last, f);
      calc {
        multiset(PagePaths(dir, names))[p];
        multiset(PagePaths(dir, init) + [JoinPath(dir, last)])[p];
        multiset(PagePaths(dir, init))[p] + multiset([JoinPath(dir, last)])[p];
        multiset(init)[f] + multiset([last])[f];
        multiset(init + [last])[f];
        { assert init + [last] == names; }
        multiset(names)[f];
      }
    }
  }

  /** The sort runs to completion exactly when there are fewer than two page images or each
      of them holds a digit. */
  lemma ComparableIffDigits(pngFiles: seq<string>)
    ensures Comparable(FirstDigitRun, pngFiles) <==>
      |pngFiles| < 2 || forall f :: f in pngFiles ==> HasDigit(f)
  {
    forall f | f in pngFiles {
      FirstDigitRunNone(f);
    }
  }

  /** The empty list comes back exactly when the conversion failed, when no entry is a page
      image, or when there are two or more page images and one of them holds no digit. */
  lemma ConversionFallsBack(moduleDir: string, listing: Option<seq<string>>)
    ensures ConvertedImages(moduleDir, listing) == [] <==>
      listing.None? || PageFiles(listing.value) == [] ||
      (|PageFiles(listing.value)| >= 2 &&
       exists f :: f in listing.value && IsPageImageName(f) && !HasDigit(f))
  {
    if listing.Some? {
      var pngFiles := PageFiles(listing.value);
      ComparableIffDigits(pngFiles);
      forall f {
        PageFilesCount(listing.value, f);
      }
    }
  }

  /** Once the sort succeeds: one path per page image entry, each directly under the
      temporary directory, each naming a page image of the listing. */
  lemma ConvertedImagesFromListing(moduleDir: string, files: seq<string>)
    requires Comparable(FirstDigitRun, PageFiles(files))
    ensures |ConvertedImages(moduleDir, Some(files))| == |PageFiles(files)|
    ensures forall p :: p in ConvertedImages(moduleDir, Some(files)) ==>
      InDir(TempDir(moduleDir), p) && BaseName(TempDir(moduleDir), p) in files &&
      IsPageImageName(BaseName(TempDir(moduleDir), p))
  {
    var dir, pngFiles := TempDir(moduleDir), PageFiles(files);
    var names := SortByPage(FirstDigitRun, pngFiles);
    SortByPagePermutes(FirstDigitRun, pngFiles);
    forall p | p in PagePaths(dir, names)
      ensures InDir(dir, p) && BaseName(dir, p) in files && IsPageImageName(BaseName(dir, p))
    {
      var i :| 0 <= i < |names| && PagePaths(dir, names)[i] == p;
      PagePathsAt(dir, names, i);
      JoinPathBaseName(dir, names[i]);
      assert names[i] in multiset(pngFiles);
      PageFilesCount(files, names[i]);
    }
  }

  /** Once the sort succeeds the paths are a permutation of the joined page image entries:
      each entry `f` of the listing contributes its path as often as it is listed, and only
      if it is a page image. */
  lemma ConvertedImagesPermutes(moduleDir: string, files: seq<string>, f: string)
    requires Comparable(FirstDigitRun, PageFiles(files))
    ensures multiset(ConvertedImages(moduleDir, Some(files)))[JoinPath(TempDir(moduleDir), f)]
      == if IsPageImageName(f) then multiset(files)[f] else 0
  {
    var pngFiles := PageFiles(files);
    SortByPagePermutes(FirstDigitRun, pngFiles);
    PagePathsCount(TempDir(moduleDir), SortByPage(FirstDigitRun, pngFiles), f);
    PageFilesCount(files, f);
  }

  /** Once the sort succeeds the file names of the paths ascend by page number. */
  lemma ConvertedImagesSorted(moduleDir: string, files: seq<string>)
    requires Comparable(FirstDigitRun, PageFiles(files))
    ensures forall i :: 0 <= i < |ConvertedImages(moduleDir, Some(files))| ==>
      InDir(TempDir(moduleDir), ConvertedImages(moduleDir, Some(files))[i])
    ensures forall i, j :: 0 <= i < j < |ConvertedImages(moduleDir, Some(files))| ==>
      PageLe(FirstDigitRun,
             BaseName(TempDir(moduleDir), ConvertedImages(moduleDir, Some(files))[i]),
             BaseName(TempDir(moduleDir), ConvertedImages(moduleDir, Some(files))[j]))
  {
    var dir, pngFiles := TempDir(moduleDir), PageFiles(files);
    var names := SortByPage(FirstDigitRun, pngFiles);
    var r := PagePaths(dir, names);
    forall i | 0 <= i < |r|
      ensures InDir(dir, r[i]) && BaseName(dir, r[i]) == names[i]
    {
      PagePathsAt(dir, names, i);
      JoinPathBaseName(dir, names[i]);
    }
    SortByPageSorted(FirstDigitRun, pngFiles);
  }

  // ---------------------------------------------------------------------------------
  // The names pdf-poppler writes

  /** The name pdf-poppler gives page `k`, zero-padded with `z` zeros. */
  function PopplerName(z: nat, k: nat): (r: string)
    ensures IsPageImageName(r)
  {
    var r := PagePrefix + Zeros(z) + Decimal(k) + PageSuffix;
    assert r[..|PagePrefix|] == PagePrefix;
    assert r[|r| - |PageSuffix|..] == PageSuffix;
    r
  }

  /** The sort key of a rendered page is its page number, whatever the zero padding: the
      order is numeric, so `page-9.png` precedes `page-10.png`. */
  lemma PopplerNameKey(z: nat, k: nat)
    ensures FirstDigitRun(PopplerName(z, k)) == Some(k)
  {
    var digits := Zeros(z) + Decimal(k);
    var s := PopplerName(z, k);
    var p, q := |PagePrefix|, |PagePrefix| + |digits|;
    assert s[p..q] == digits;
    assert s[..p] == PagePrefix;
    assert q < |s| && s[q] == '.';
    FirstDigitRunMatch(s, p, q);
    LeadingZeros(z, Decimal(k));
    DecimalRoundTrip(k);
  }

  /** However the directory lists them, page images with distinct, increasing page numbers
      come back in page order. */
  lemma PageOrderRestored(moduleDir: string, files: seq<string>, pages: seq<string>)
    requires StrictlyByPage(FirstDigitRun, pages)
    requires multiset(PageFiles(files)) == multiset(pages)
    ensures ConvertedImages(moduleDir, Some(files)) == PagePaths(TempDir(moduleDir), pages)
  {
    var pngFiles := PageFiles(files);
    assert |pngFiles| == |multiset(pages)| == |pages|;
    if |pages| >= 2 {
      StrictNumbered(FirstDigitRun, pages);
      NumberedPermutation(FirstDigitRun, pngFiles, pages);
    }
    SortByPagePermutes(FirstDigitRun, pngFiles);
    SortByPageSorted(FirstDigitRun, pngFiles);
    SortedUnique(FirstDigitRun, SortByPage(FirstDigitRun, pngFiles), pages);
  }

  /** Numeric, not lexicographic: `page-10.png` listed before `page-9.png` comes after it. */
  lemma NumericOrder(moduleDir: string, other: string)
    requires !IsPageImageName(other)
    ensures ConvertedImages(moduleDir, Some([PopplerName(0, 10), other, PopplerName(0, 9)]))
      == [JoinPath(TempDir(moduleDir), PopplerName(0, 9)),
          JoinPath(TempDir(moduleDir), PopplerName(0, 10))]
  {
    var ten, nine := PopplerName(0, 10), PopplerName(0, 9);
    PopplerNameKey(0, 9);
    PopplerNameKey(0, 10);
    PagesAroundOther(ten, other, nine);
    ReorderedPair(moduleDir, [ten, other, nine], nine, ten);
  }

  /** The filter drops the entry between two page images. */
  lemma PagesAroundOther(first: string, other: string, second: string)
    requires IsPageImageName(first) && IsPageImageName(second) && !IsPageImageName(other)
    ensures PageFiles([first, other, second]) == [first, second]
  {
    assert [first, other, second] == [first] + [other] + [second];
    FilterAppend(IsPageImageName, [first] + [other], [second]);
    FilterAppend(IsPageImageName, [first], [other]);
    FilterSingle(IsPageImageName, first);
    FilterSingle(IsPageImageName, other);
    FilterSingle(IsPageImageName, second);
  }

  /** Two page images listed in the wrong order come back swapped. */
  lemma ReorderedPair(moduleDir: string, files: seq<string>, low: string, high: string)
    requires PageFiles(files) == [high, low]
    requires PageLe(FirstDigitRun, low, high) && !PageLe(FirstDigitRun, high, low)
    ensures ConvertedImages(moduleDir, Some(files))
      == [JoinPath(TempDir(moduleDir), low), JoinPath(TempDir(moduleDir), high)]
  {
    var pages := [low, high];
    assert StrictlyByPage(FirstDigitRun, pages);
    assert multiset(PageFiles(files)) == multiset(pages);
    PageOrderRestored(moduleDir, files, pages);
    PagePathsAt(TempDir(moduleDir), pages, 0);
    PagePathsAt(TempDir(moduleDir), pages, 1);
  }
}

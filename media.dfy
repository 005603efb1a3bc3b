/** What the app does with the name of a status file: the extension filter of
    the folder scan, and the image / video classification of a status item. */
module Media {
  import opened Paths

  /** The suffixes a status file may end with, after lower-casing. */
  const ALLOWED_EXTENSIONS: seq<string> := [".jpg", ".jpeg", ".png", ".mp4"]

  /** The extensions a status item shows as a picture; VIDEO_EXTENSION plays as a video. */
  const IMAGE_EXTENSIONS: seq<string> := [".jpg", ".jpeg", ".png"]
  const VIDEO_EXTENSION: string := ".mp4"

  predicate EndsWith(s: string, suffix: string)
  {
    |suffix| <= |s| && s[|s| - |suffix|..] == suffix
  }

  /** The scan filter: the lower-cased entry name ends with one of the allowed
      extensions (str.endswith with a tuple of suffixes). */
  predicate PassesFilter(name: string)
    ensures PassesFilter(name) ==> |name| >= 4
  {
    exists e :: e in ALLOWED_EXTENSIONS && EndsWith(Lower(name), e)
  }

  /** Which widget a status item shows: an image, a video player, or the
      "Unknown format" label. */
  datatype Kind = Image | Video | Unknown

  /** The widget for a lower-cased extension: exactly the allowed extensions
      give a picture or a video. */
  function KindOfExtension(ext: string): (k: Kind)
    ensures k != Unknown <==> ext in ALLOWED_EXTENSIONS
  {
    if ext in IMAGE_EXTENSIONS then Image
    else if ext == VIDEO_EXTENSION then Video
    else Unknown
  }

  /** The classification of a status item: the extension that splitext finds in
      the lower-cased path. Whatever it recognises, the scan filter accepts too. */
  function KindOf(path: string): (k: Kind)
    ensures k != Unknown ==> PassesFilter(path)
  {
    var parts := SplitExt(Lower(path));
    assert EndsWith(Lower(path), parts.1) by {
      assert Lower(path) == parts.0 + parts.1;
    }
    KindOfExtension(parts.1)
  }

  /** Every allowed extension is a dot followed by lower-case letters and
      digits, so it is its own lower-case form and holds a single dot. */
  lemma AllowedExtensionShape(e: string)
    requires e in ALLOWED_EXTENSIONS
    ensures Lower(e) == e
    ensures |e| >= 1 && e[0] == '.' && NoneAfter(e, '.', 0) && NoSeparator(e)
    ensures KindOfExtension(e) != Unknown
  {
  }

  /** The classification looks only at the file name, not at the folder the
      name is joined onto. */
  lemma KindOfJoin(dir: string, name: string)
    requires NoSeparator(name)
    ensures KindOf(Join(dir, name)) == KindOf(name)
  {
    var j := Join(dir, name);
    SplitExtOfBasename(Lower(j));
    BasenameOfLower(j);
    BasenameOfJoin(dir, name);
  }

  /** For a name the filter accepts through extension `e`, the classification
      agrees with `e` unless nothing but dots comes before `e`: then splitext
      sees no extension and the item is shown as "Unknown format". */
  lemma KindOfAcceptedName(name: string, e: string)
    requires NoSeparator(name)
    requires e in ALLOWED_EXTENSIONS && EndsWith(Lower(name), e)
    ensures KindOf(name) == if OnlyDots(Lower(name), 0, |name| - |e|) then Unknown else KindOfExtension(e)
  {
    AllowedExtensionShape(e);
    LowerKeepsSeparators(name, '/');
    LastIndexOfUnique(Lower(name), '/', -1);
    SplitExtOfDottedSuffix(Lower(name), e);
  }

  /** The disagreement between filter and classification: a status file named
      just ".jpg" (or any other allowed extension) is listed by the scan and
      then shown as "Unknown format". */
  lemma BareExtensionIsListedButUnknown(dir: string, e: string)
    requires e in ALLOWED_EXTENSIONS
    ensures PassesFilter(e)
    ensures KindOf(Join(dir, e)) == Unknown
  {
    AllowedExtensionShape(e);
    assert EndsWith(Lower(e), e);
    KindOfAcceptedName(e, e);
    KindOfJoin(dir, e);
  }

  /** The comprehension of the folder scan: every listed entry the filter
      accepts, joined onto the status folder, in listing order. */
  function ScanFilter(dir: string, listing: seq<string>): (files: seq<string>)
    ensures |files| <= |listing|
  {
    if listing == [] then []
    else (if PassesFilter(listing[0]) then [Join(dir, listing[0])] else []) + ScanFilter(dir, listing[1..])
  }

  /** Scanning a listing in two parts gives the two results one after the
      other: the scan keeps the listing's order. */
  lemma {:induction false} ScanFilterAppend(dir: string, a: seq<string>, b: seq<string>)
    ensures ScanFilter(dir, a + b) == ScanFilter(dir, a) + ScanFilter(dir, b)
  {
    if a == [] {
      assert a + b == b;
    } else {
      var x := a[0];
      var rest := a[1..];
      assert a == [x] + rest;
      assert a + b == [x] + (rest + b);
      ScanFilterCons(dir, x, rest + b);
      ScanFilterCons(dir, x, rest);
      ScanFilterAppend(dir, rest, b);
    }
  }

  lemma ScanFilterCons(dir: string, x: string, rest: seq<string>)
    ensures ScanFilter(dir, [x] + rest) == ScanFilter(dir, [x]) + ScanFilter(dir, rest)
  {
    assert ([x] + rest)[1..] == rest;
    assert [x][1..] == [];
  }

  /** A file is in the scan result exactly when its name is listed and passes
      the filter (directory entries never hold a separator). */
  lemma {:induction false} ScanFilterContains(dir: string, listing: seq<string>, name: string)
    requires NoSeparator(name)
    requires forall n :: n in listing ==> NoSeparator(n)
    ensures Join(dir, name) in ScanFilter(dir, listing) <==> name in listing && PassesFilter(name)
  {
    if listing != [] {
      ScanFilterContains(dir, listing[1..], name);
      JoinInjective(dir, name, listing[0]);
      assert name in listing <==> name == listing[0] || name in listing[1..];
    }
  }

  /** The scan finds nothing exactly when no listed entry passes the filter. */
  lemma {:induction false} ScanFilterEmpty(dir: string, listing: seq<string>)
    ensures ScanFilter(dir, listing) == [] <==> forall n :: n in listing ==> !PassesFilter(n)
  {
    if listing != [] {
      ScanFilterEmpty(dir, listing[1..]);
      assert forall n :: n in listing ==> n == listing[0] || n in listing[1..];
    }
  }

  /** The filter on three sample names: two media files and a text file. */
  lemma SampleNames()
    ensures PassesFilter("a.jpg") && PassesFilter("b.mp4") && !PassesFilter("c.txt")
  {
    assert Lower("a.jpg") == "a.jpg" && ".jpg" in ALLOWED_EXTENSIONS;
    assert Lower("b.mp4") == "b.mp4" && ".mp4" in ALLOWED_EXTENSIONS;
    assert Lower("c.txt") == "c.txt";
  }

  /** A folder holding a.jpg, b.mp4 and c.txt scans to the first two, in that
      order. */
  lemma ScanExample(dir: string)
    ensures ScanFilter(dir, ["a.jpg", "b.mp4", "c.txt"]) == [Join(dir, "a.jpg"), Join(dir, "b.mp4")]
  {
    var listing := ["a.jpg", "b.mp4", "c.txt"];
    SampleNames();
    assert listing[1..] == ["b.mp4", "c.txt"];
    assert listing[1..][1..] == ["c.txt"];
    assert ["c.txt"][1..] == [];
    assert ScanFilter(dir, ["c.txt"]) == [];
    assert ScanFilter(dir, ["b.mp4", "c.txt"]) == [Join(dir, "b.mp4")];
  }
}

/** The start-up scan of the asset directory: every entry the directory walk
    reports is looked at once, in the walk's order, and only the images
    (extension exactly ".png" or ".jpg") are kept. */
module AssetScan {

  /** One directory entry as the directory walk reports it: display name,
      full path, extension including its leading dot, and size in bytes. */
  datatype Entry = Entry(name: string, path: string, ext: string, size: nat)

  /** The two `strcmp` tests of the scan: exact, case-sensitive, dot included. */
  predicate IsImageExt(ext: string)
  {
    ext == ".png" || ext == ".jpg"
  }

  /** The specification of the scan: the image entries of `entries`, in order.
      Written from the end, as the scan appends one entry at a time. */
  function ImageFiles(entries: seq<Entry>): seq<Entry>
  {
    if entries == [] then []
    else
      var last := entries[|entries| - 1];
      var rest := ImageFiles(entries[..|entries| - 1]);
      if IsImageExt(last.ext) then rest + [last] else rest
  }

  /** The positions in `entries` of the image entries, in increasing order:
      an index-level description of what the scan keeps. */
  function ImageIndices(entries: seq<Entry>): seq<nat>
  {
    if entries == [] then []
    else
      var rest := ImageIndices(entries[..|entries| - 1]);
      if IsImageExt(entries[|entries| - 1].ext) then rest + [|entries| - 1] else rest
  }

  /** The scan loop: walk the entries and append each image entry to `files`. */
  method ScanAssets(entries: seq<Entry>) returns (files: seq<Entry>)
    ensures files == ImageFiles(entries)
    ensures forall k :: 0 <= k < |files| ==> IsImageExt(files[k].ext)
    ensures |files| <= |entries|
  {
    files := [];
    var i := 0;
    while i < |entries|
      invariant 0 <= i <= |entries|
      invariant files == ImageFiles(entries[..i])
    {
      var file := entries[i];
      assert entries[..i + 1][..i] == entries[..i];
      if file.ext == ".png" || file.ext == ".jpg" {
        files := files + [file];
      }
      i := i + 1;
    }
    assert entries[..i] == entries;
    ImageFilesOnlyImages(entries);
    ImageFilesLength(entries);
  }

  /** Every entry kept by the scan has an image extension. */
  lemma {:induction false} ImageFilesOnlyImages(entries: seq<Entry>)
    ensures forall k :: 0 <= k < |ImageFiles(entries)| ==> IsImageExt(ImageFiles(entries)[k].ext)
  {
    if entries != [] {
      ImageFilesOnlyImages(entries[..|entries| - 1]);
    }
  }

  /** What the scan keeps, position by position: the k-th kept entry is the
      entry at the k-th image position, the positions increase strictly (so
      the walk's order is kept), and a position is kept exactly when the entry
      there is an image. */
  lemma {:induction false} ImageFilesKeepsOrder(entries: seq<Entry>)
    ensures |ImageIndices(entries)| == |ImageFiles(entries)|
    ensures forall k :: 0 <= k < |ImageIndices(entries)| ==>
      ImageIndices(entries)[k] < |entries| && ImageFiles(entries)[k] == entries[ImageIndices(entries)[k]]
    ensures forall k, l :: 0 <= k < l < |ImageIndices(entries)| ==> ImageIndices(entries)[k] < ImageIndices(entries)[l]
    ensures forall i :: 0 <= i < |entries| ==> (i in ImageIndices(entries) <==> IsImageExt(entries[i].ext))
  {
    if entries != [] {
      var init := entries[..|entries| - 1];
      ImageFilesKeepsOrder(init);
      forall i | 0 <= i < |init| ensures entries[i] == init[i] { }
    }
  }

  /** An entry is kept by the scan exactly when it was found by the walk and
      has an image extension. */
  lemma {:induction false} ImageFilesMembership(entries: seq<Entry>, e: Entry)
    ensures e in ImageFiles(entries) <==> e in entries && IsImageExt(e.ext)
  {
    ImageFilesKeepsOrder(entries);
    var files, idx := ImageFiles(entries), ImageIndices(entries);
    if e in files {
      var k :| 0 <= k < |files| && files[k] == e;
      assert entries[idx[k]] == e && idx[k] in idx;
    }
    if e in entries && IsImageExt(e.ext) {
      var i :| 0 <= i < |entries| && entries[i] == e;
      assert i in idx;
      var k :| 0 <= k < |idx| && idx[k] == i;
      assert files[k] == e;
    }
  }

  /** The scan never grows the list, and it keeps every entry exactly when
      every entry is an image. */
  lemma {:induction false} ImageFilesLength(entries: seq<Entry>)
    ensures |ImageFiles(entries)| <= |entries|
    ensures |ImageFiles(entries)| == |entries| <==> forall e :: e in entries ==> IsImageExt(e.ext)
  {
    if entries != [] {
      var init := entries[..|entries| - 1];
      ImageFilesLength(init);
      assert entries == init + [entries[|entries| - 1]];
    }
  }

  /** Scanning the result of a scan changes nothing. */
  lemma {:induction false} ImageFilesIdempotent(entries: seq<Entry>)
    ensures ImageFiles(ImageFiles(entries)) == ImageFiles(entries)
  {
    ImageFilesOnlyImages(entries);
    AllImagesKept(ImageFiles(entries));
  }

  /** A walk that reports only images is kept whole. */
  lemma {:induction false} AllImagesKept(entries: seq<Entry>)
    requires forall k :: 0 <= k < |entries| ==> IsImageExt(entries[k].ext)
    ensures ImageFiles(entries) == entries
  {
    if entries != [] {
      var init := entries[..|entries| - 1];
      AllImagesKept(init);
      assert entries == init + [entries[|entries| - 1]];
    }
  }

  /** The comparison is on the exact text: other spellings are not images. */
  lemma ImageExtIsExact()
    ensures IsImageExt(".png") && IsImageExt(".jpg")
    ensures !IsImageExt(".PNG") && !IsImageExt("png") && !IsImageExt(".jpeg") && !IsImageExt("")
  {
  }
}

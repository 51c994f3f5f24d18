/** The asset browser's state across frames: the scanned image list, the row
    the user has selected, and the lazily filled cache of texture previews,
    keyed by list position. */
module Nexus {
  import opened AssetScan
  import opened Textures

  /** `selected` starts at row 0 (a function-local `static int`). */
  const InitialSelection: int := 0

  /** What the item view pane shows in one frame. */
  datatype ItemView =
    | Shown(file: Entry, preview: TexturePreview)  // the selected file and its preview
    | LoadFailed(path: string)                     // the load assertion fired: the program stops
    | NoFiles                                      // the scan found no image (see ShowSelected)
    | Hidden                                       // the browser window was not drawn this frame

  /** The user's input to one frame: whether the browser window is drawn,
      which list rows report a click, and the GL name a texture created in
      this frame would get. */
  datatype Frame = Frame(windowOpen: bool, clicked: set<int>, glName: GLuint)

  ghost predicate NoDuplicates(s: seq<int>)
  {
    forall i, j :: 0 <= i < j < |s| ==> s[i] != s[j]
  }

  /** The selection after the list loop has asked rows 0 .. n-1 whether they
      were clicked, starting from `selected`: the last clicked row wins. */
  function AfterSelectionPass(n: nat, clicked: set<int>, selected: int): int
  {
    if n == 0 then selected
    else if n - 1 in clicked then n - 1
    else AfterSelectionPass(n - 1, clicked, selected)
  }

  /** The list loop leaves the selection alone when no row was clicked, and
      otherwise selects the last clicked row. */
  lemma {:induction false} AfterSelectionPassSpec(n: nat, clicked: set<int>, selected: int)
    ensures (forall i :: 0 <= i < n ==> i !in clicked) ==> AfterSelectionPass(n, clicked, selected) == selected
    ensures (exists i :: 0 <= i < n && i in clicked) ==>
      var r := AfterSelectionPass(n, clicked, selected);
      0 <= r < n && r in clicked && forall j :: r < j < n ==> j !in clicked
  {
    if n > 0 && n - 1 !in clicked {
      AfterSelectionPassSpec(n - 1, clicked, selected);
      if exists i :: 0 <= i < n && i in clicked {
        var i :| 0 <= i < n && i in clicked;
        assert i < n - 1;
      }
    }
  }

  /** A list of distinct row numbers, all below n, has at most n elements. */
  lemma DistinctRowsBounded(s: seq<int>, n: nat)
    requires NoDuplicates(s)
    requires forall k :: 0 <= k < |s| ==> 0 <= s[k] < n
    ensures |s| <= n
  {
    DistinctCard(s);
    RowSetBounded((set x | x in s), n);
  }

  lemma {:induction false} DistinctCard(s: seq<int>)
    requires NoDuplicates(s)
    ensures |set x | x in s| == |s|
  {
    if s != [] {
      DistinctCard(s[1..]);
      assert (set x | x in s) == {s[0]} + (set x | x in s[1..]);
    }
  }

  lemma {:induction false} RowSetBounded(rows: set<int>, n: nat)
    requires forall x :: x in rows ==> 0 <= x < n
    ensures |rows| <= n
  {
    if n > 0 {
      RowSetBounded(rows - {n - 1}, n - 1);
    } else {
      assert forall x :: x !in rows;
    }
  }

  /** The file the item view reads, as the program indexes it: `files[selected]`
      with no check that the list is non-empty. */
  function ItemViewFile(files: seq<Entry>, selected: int): (file: Entry)
    requires 0 <= selected < |files|
    ensures file in files
  {
    files[selected]
  }

  /** A directory without a ".png" or ".jpg" entry leaves the list empty. The
      conclusion is the negation of ItemViewFile's precondition for the
      start-up state (the scanned list and the initial selection): the program
      as written reads past the end of an empty list in its first frame. */
  lemma {:induction false} EmptyScanLeavesNoSelectableFile(entries: seq<Entry>)
    requires forall e :: e in entries ==> !IsImageExt(e.ext)
    ensures !(0 <= InitialSelection < |ImageFiles(entries)|)
  {
    if ImageFiles(entries) != [] {
      ImageFilesMembership(entries, ImageFiles(entries)[0]);
    }
  }

  /** The selection is row 0, where it starts, or a real row of the list. */
  predicate SelectionInRange(files: seq<Entry>, selected: int)
  {
    selected == InitialSelection || 0 <= selected < |files|
  }

  /** What the frame loop carries from one frame to the next (the selection
      and the cache), with what it has produced so far: the views shown and
      the rows loaded, in order. */
  datatype RunState = RunState(selected: int, previews: map<int, TexturePreview>,
                               views: seq<ItemView>, loaded: seq<int>)
  {
    /** The last frame's load failed: the load assertion has stopped the program. */
    predicate Stopped()
    {
      |views| > 0 && views[|views| - 1].LoadFailed?
    }
  }

  /** One frame of the browser window on values: if the window is drawn, the
      list loop updates the selection, and the item view shows the selected
      file, loading its preview when that row is not cached yet. A frame
      either leaves the cache as it was or adds exactly the selected row,
      which was missing, and never changes an entry already cached. */
  function FrameStep(files: seq<Entry>, s: RunState, frame: Frame, decode: string -> Option<Image>): (t: RunState)
    requires SelectionInRange(files, s.selected)
    ensures SelectionInRange(files, t.selected)
    ensures |t.views| == |s.views| + 1 && t.views[..|s.views|] == s.views
    ensures forall k :: k in s.previews ==> k in t.previews && t.previews[k] == s.previews[k]
    ensures (t.previews == s.previews && t.loaded == s.loaded)
         || (0 <= t.selected < |files| && t.selected !in s.previews && t.loaded == s.loaded + [t.selected]
             && t.previews.Keys == s.previews.Keys + {t.selected})
  {
    if !frame.windowOpen then s.(views := s.views + [Hidden])
    else
      var sel := AfterSelectionPass(|files|, frame.clicked, s.selected);
      AfterSelectionPassSpec(|files|, frame.clicked, s.selected);
      if |files| == 0 then s.(selected := sel, views := s.views + [NoFiles])
      else
        var file := ItemViewFile(files, sel);
        if sel in s.previews then s.(selected := sel, views := s.views + [Shown(file, s.previews[sel])])
        else
          match decode(file.path)
          case None => s.(selected := sel, views := s.views + [LoadFailed(file.path)])
          case Some(image) =>
            var previews := s.previews[sel := TexturePreview(image.width, image.height, frame.glName)];
            RunState(sel, previews, s.views + [Shown(file, previews[sel])], s.loaded + [sel])
  }

  /** The frame loop on values: the frames in order, from the given selection
      and cache, until the frames run out or a load fails. */
  function RunFrames(files: seq<Entry>, selected: int, previews: map<int, TexturePreview>,
                     frames: seq<Frame>, decode: string -> Option<Image>): (r: RunState)
    requires SelectionInRange(files, selected)
    ensures SelectionInRange(files, r.selected)
    decreases |frames|
  {
    if frames == [] then RunState(selected, previews, [], [])
    else
      var r := RunFrames(files, selected, previews, frames[..|frames| - 1], decode);
      if r.Stopped() then r else FrameStep(files, r, frames[|frames| - 1], decode)
  }

  /** No entry cached before the run is changed or evicted by it. */
  lemma {:induction false} RunFramesKeepsCache(files: seq<Entry>, selected: int, previews: map<int, TexturePreview>,
                                               frames: seq<Frame>, decode: string -> Option<Image>)
    requires SelectionInRange(files, selected)
    ensures var r := RunFrames(files, selected, previews, frames, decode);
      forall k :: k in previews ==> k in r.previews && r.previews[k] == previews[k]
    decreases |frames|
  {
    if frames != [] {
      RunFramesKeepsCache(files, selected, previews, frames[..|frames| - 1], decode);
    }
  }

  /** Every entry cached after the first m frames is still there, unchanged,
      after any later frame. */
  lemma {:induction false} RunFramesPrefixKeepsCache(files: seq<Entry>, selected: int, previews: map<int, TexturePreview>,
                                                     frames: seq<Frame>, m: nat, decode: string -> Option<Image>)
    requires SelectionInRange(files, selected)
    requires m <= |frames|
    ensures var early, late := RunFrames(files, selected, previews, frames[..m], decode),
                               RunFrames(files, selected, previews, frames, decode);
      forall k :: k in early.previews ==> k in late.previews && late.previews[k] == early.previews[k]
    decreases |frames|
  {
    if m < |frames| {
      var init := frames[..|frames| - 1];
      RunFramesPrefixKeepsCache(files, selected, previews, init, m, decode);
      assert init[..m] == frames[..m];
    } else {
      assert frames[..m] == frames;
    }
  }

  /** A row is loaded only in a frame where it is missing from the cache:
      the rows loaded are real rows, distinct, none of them cached before the
      run, and the cache afterwards holds exactly the old rows and these. */
  lemma {:induction false} RunFramesLoadsMissingRows(files: seq<Entry>, selected: int, previews: map<int, TexturePreview>,
                                                     frames: seq<Frame>, decode: string -> Option<Image>)
    requires SelectionInRange(files, selected)
    ensures var r := RunFrames(files, selected, previews, frames, decode);
      NoDuplicates(r.loaded)
      && (forall i :: 0 <= i < |r.loaded| ==> r.loaded[i] !in previews && 0 <= r.loaded[i] < |files|)
      && (forall k :: k in r.previews <==> k in previews || k in r.loaded)
    decreases |frames|
  {
    if frames != [] {
      RunFramesLoadsMissingRows(files, selected, previews, frames[..|frames| - 1], decode);
    }
  }

  /** However many frames run, there are at most as many loads as files. */
  lemma RunFramesLoadsBounded(files: seq<Entry>, selected: int, previews: map<int, TexturePreview>,
                              frames: seq<Frame>, decode: string -> Option<Image>)
    requires SelectionInRange(files, selected)
    ensures |RunFrames(files, selected, previews, frames, decode).loaded| <= |files|
  {
    var r := RunFrames(files, selected, previews, frames, decode);
    RunFramesLoadsMissingRows(files, selected, previews, frames, decode);
    DistinctRowsBounded(r.loaded, |files|);
  }

  /** One view per frame until the first failed load, and none after it: only
      the last view can be a failure, and a run that shows fewer views than
      it has frames ended on one. */
  lemma {:induction false} RunFramesStopsAtFirstFailure(files: seq<Entry>, selected: int, previews: map<int, TexturePreview>,
                                                        frames: seq<Frame>, decode: string -> Option<Image>)
    requires SelectionInRange(files, selected)
    ensures var r := RunFrames(files, selected, previews, frames, decode);
      |r.views| <= |frames|
      && (forall i :: 0 <= i < |r.views| - 1 ==> !r.views[i].LoadFailed?)
      && (|r.views| < |frames| ==> r.Stopped())
    decreases |frames|
  {
    if frames != [] {
      RunFramesStopsAtFirstFailure(files, selected, previews, frames[..|frames| - 1], decode);
    }
  }

  /** Once a load has failed, later frames change nothing. */
  lemma {:induction false} RunFramesStoppedIsFinal(files: seq<Entry>, selected: int, previews: map<int, TexturePreview>,
                                                   frames: seq<Frame>, m: nat, decode: string -> Option<Image>)
    requires SelectionInRange(files, selected)
    requires m <= |frames|
    requires RunFrames(files, selected, previews, frames[..m], decode).Stopped()
    ensures RunFrames(files, selected, previews, frames, decode) == RunFrames(files, selected, previews, frames[..m], decode)
    decreases |frames|
  {
    if m < |frames| {
      var init := frames[..|frames| - 1];
      assert init[..m] == frames[..m];
      RunFramesStoppedIsFinal(files, selected, previews, init, m, decode);
    } else {
      assert frames[..m] == frames;
    }
  }

  class Browser {
    /** The scanned image entries; fixed after the scan. */
    var files: seq<Entry>
    /** The selected row (`static int selected`). */
    var selected: int
    /** The preview cache (`texturePreviewMap`), keyed by row. */
    var previews: map<int, TexturePreview>
    /** The rows loaded so far, in load order. */
    ghost var loads: seq<int>

    /** The selection is the initial row or a real row; the list holds only
        images; the cache is keyed by real rows; and every cached row was
        loaded exactly once. */
    ghost predicate Valid()
      reads this
    {
      SelectionInRange(files, selected)
      && (forall k :: 0 <= k < |files| ==> IsImageExt(files[k].ext))
      && (forall k :: k in previews ==> 0 <= k < |files|)
      && NoDuplicates(loads)
      && (forall k :: k in previews <==> k in loads)
    }

    /** Start-up: scan the directory; nothing selected but row 0, nothing cached. */
    constructor (entries: seq<Entry>)
      ensures Valid()
      ensures files == ImageFiles(entries)
      ensures selected == InitialSelection && previews == map[] && loads == []
    {
      var scanned := ScanAssets(entries);
      files := scanned;
      selected := InitialSelection;
      previews := map[];
      loads := [];
      ImageFilesOnlyImages(entries);
    }

    /** The left pane's list loop: each row in turn is asked whether it was
        clicked, and a clicked row becomes the selection. */
    method SelectFromList(clicked: set<int>)
      requires Valid()
      modifies this`selected
      ensures Valid()
      ensures selected == AfterSelectionPass(|files|, clicked, old(selected))
    {
      for i := 0 to |files|
        invariant selected == AfterSelectionPass(i, clicked, old(selected))
        invariant selected == InitialSelection || 0 <= selected < |files|
      {
        if i in clicked {
          selected := i;
        }
      }
    }

    /** The right pane: show the selected file and make sure its preview is
        cached, loading it on the first visit only. A load failure stops the
        program (the load assertion), with the cache untouched. Unlike the program
        as written, an empty list shows nothing instead of reading `files[0]`. */
    method ShowSelected(decode: string -> Option<Image>, glName: GLuint) returns (view: ItemView)
      requires Valid()
      modifies this`previews, this`loads
      ensures Valid()
      ensures !view.Hidden?
      ensures |files| == 0 ==> view == NoFiles && previews == old(previews) && loads == old(loads)
      ensures |files| > 0 && selected in old(previews) ==>
        previews == old(previews) && loads == old(loads) && view == Shown(files[selected], previews[selected])
      ensures |files| > 0 && selected !in old(previews) && decode(files[selected].path).None? ==>
        previews == old(previews) && loads == old(loads) && view == LoadFailed(files[selected].path)
      ensures |files| > 0 && selected !in old(previews) && decode(files[selected].path).Some? ==>
        var image := decode(files[selected].path).value;
        previews == old(previews)[selected := TexturePreview(image.width, image.height, glName)]
        && loads == old(loads) + [selected]
        && view == Shown(files[selected], previews[selected])
      ensures view.Shown? ==> selected in previews && view.preview == previews[selected]
    {
      if |files| == 0 {
        return NoFiles;
      }
      var file := ItemViewFile(files, selected);
      if selected !in previews {
        // `TexturePreview preview;` is uninitialised: zeros stand for its contents
        var ret, textureId, width, height := LoadTextureFromFile(file.path, decode, glName, 0, 0, 0);
        if !ret {
          return LoadFailed(file.path);
        }
        previews := previews[selected := TexturePreview(width, height, textureId)];
        loads := loads + [selected];
      }
      view := Shown(file, previews[selected]);
    }

    /** The main loop over the frames until the window is closed: in each
        frame whose browser window is drawn, the list loop runs and then the
        item view. A failed load ends the run. The final selection, cache and
        views, and the rows loaded, are those of RunFrames; so cached
        previews are never changed or evicted, and no row is loaded twice. */
    method Run(frames: seq<Frame>, decode: string -> Option<Image>) returns (views: seq<ItemView>)
      requires Valid()
      modifies this
      ensures Valid()
      ensures files == old(files)
      ensures var r := RunFrames(files, old(selected), old(previews), frames, decode);
        selected == r.selected && previews == r.previews && views == r.views && loads == old(loads) + r.loaded
      ensures forall k :: k in old(previews) ==> k in previews && previews[k] == old(previews)[k]
      ensures |views| <= |frames|
      ensures forall i :: 0 <= i < |views| - 1 ==> !views[i].LoadFailed?
      ensures |views| < |frames| ==> |views| > 0 && views[|views| - 1].LoadFailed?
      ensures |loads| <= |files|
    {
      views := [];
      var f := 0;
      while f < |frames|
        invariant 0 <= f <= |frames|
        invariant Valid()
        invariant files == old(files)
        invariant var r := RunFrames(files, old(selected), old(previews), frames[..f], decode);
          selected == r.selected && previews == r.previews && views == r.views
          && loads == old(loads) + r.loaded && !r.Stopped()
      {
        ghost var before := RunFrames(files, old(selected), old(previews), frames[..f], decode);
        var frame := frames[f];
        var view := Hidden;
        if frame.windowOpen {
          SelectFromList(frame.clicked);
          view := ShowSelected(decode, frame.glName);
        }
        views := views + [view];
        assert frames[..f + 1][..f] == frames[..f];
        assert RunFrames(files, old(selected), old(previews), frames[..f + 1], decode)
            == FrameStep(files, before, frame, decode);
        f := f + 1;
        if view.LoadFailed? {
          RunFramesStoppedIsFinal(files, old(selected), old(previews), frames, f, decode);
          break;
        }
      }
      assert f == |frames| ==> frames[..f] == frames;
      RunFramesKeepsCache(files, old(selected), old(previews), frames, decode);
      RunFramesStopsAtFirstFailure(files, old(selected), old(previews), frames, decode);
      forall i | 0 <= i < |loads| ensures 0 <= loads[i] < |files| {
        assert loads[i] in loads;
      }
      DistinctRowsBounded(loads, |files|);
    }
  }

  /** An instance of ShowSelected's cache-hit case, from start-up: after the
      first frame's list loop, two frames show the same row. The second frame
      is reached only if the first one's load did not fail; it then finds the
      preview the first cached, so the file is decoded and uploaded once and
      the GL name the second frame offers is never used. */
  method RevisitUsesCachedPreview(entries: seq<Entry>, clicked: set<int>, decode: string -> Option<Image>,
                                  first: GLuint, second: GLuint)
    returns (firstView: ItemView, secondView: Option<ItemView>)
    ensures secondView.Some? <==> !firstView.LoadFailed?
    ensures secondView.Some? ==> secondView.value == firstView
    ensures firstView.Shown? ==> firstView.preview.textureId == first
  {
    var browser := new Browser(entries);
    browser.SelectFromList(clicked);
    firstView := browser.ShowSelected(decode, first);
    if firstView.LoadFailed? {
      return firstView, None;
    }
    var view := browser.ShowSelected(decode, second);
    secondView := Some(view);
  }
}

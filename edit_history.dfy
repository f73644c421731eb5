/**
 * The editor's history as a value: the undo stack and the redo stack (top at
 * the end of each sequence) and zoomImageIndex, the count of unzoomed images
 * pushed since the last load. The class ImageEditor keeps these three as
 * fields; its methods are specified by the functions here.
 */
module EditHistory {
  import opened Wrappers

  datatype History<T> = History(undo: seq<T>, redo: seq<T>, zoomImageIndex: int)

  /** A freshly constructed editor: both stacks empty, index 0. */
  function Empty<T>(): (r: History<T>)
    ensures Current(r) == None && Original(r) == None
    ensures Undo(r) == r && Redo(r) == r
  {
    History([], [], 0)
  }

  /** addImage(img, zoomed): push img, clear the redo stack, count img only when it is not zoomed. */
  function AddImageZoomed<T>(h: History<T>, img: T, zoomed: bool): (r: History<T>)
    ensures |r.undo| == |h.undo| + 1 && r.undo[..|h.undo|] == h.undo
    ensures Current(r) == Some(img) && Redo(r) == r
    ensures r.redo == [] && r.zoomImageIndex == (if zoomed then h.zoomImageIndex else h.zoomImageIndex + 1)
  {
    History(h.undo + [img], [], if zoomed then h.zoomImageIndex else h.zoomImageIndex + 1)
  }

  /** addImage(img): push img, clear the redo stack, count img. */
  function AddImage<T>(h: History<T>, img: T): (r: History<T>)
    ensures r == AddImageZoomed(h, img, false)
  {
    History(h.undo + [img], [], h.zoomImageIndex + 1)
  }

  /** undoImage: move the top of the undo stack onto the redo stack; nothing when it is empty. */
  function Undo<T>(h: History<T>): (r: History<T>)
    ensures |h.undo| == 0 ==> r == h
    ensures |h.undo| > 0 ==>
      |r.undo| == |h.undo| - 1 && r.undo == h.undo[..|r.undo|] &&
      |r.redo| == |h.redo| + 1 && r.redo[..|h.redo|] == h.redo && r.redo[|h.redo|] == h.undo[|h.undo| - 1]
    ensures r.zoomImageIndex == h.zoomImageIndex
  {
    if |h.undo| == 0 then h
    else History(h.undo[..|h.undo| - 1], h.redo + [h.undo[|h.undo| - 1]], h.zoomImageIndex)
  }

  /** redoImage: move the top of the redo stack onto the undo stack; nothing when it is empty. */
  function Redo<T>(h: History<T>): (r: History<T>)
    ensures |h.redo| == 0 ==> r == h
    ensures |h.redo| > 0 ==>
      |r.redo| == |h.redo| - 1 && r.redo == h.redo[..|r.redo|] &&
      |r.undo| == |h.undo| + 1 && r.undo[..|h.undo|] == h.undo && r.undo[|h.undo|] == h.redo[|h.redo| - 1]
    ensures r.zoomImageIndex == h.zoomImageIndex
  {
    if |h.redo| == 0 then h
    else History(h.undo + [h.redo[|h.redo| - 1]], h.redo[..|h.redo| - 1], h.zoomImageIndex)
  }

  /** getImage: the top of the undo stack, or nothing. */
  function Current<T>(h: History<T>): (r: Option<T>)
    ensures r.Some? <==> |h.undo| > 0
    ensures r.Some? ==> r.value == h.undo[|h.undo| - 1]
  {
    if |h.undo| == 0 then None else Some(h.undo[|h.undo| - 1])
  }

  /**
   * getOriginalImage: entry zoomImageIndex - 1 of the undo stack, but only
   * while that entry is strictly below the top. zoomImageIndex counts the
   * images pushed unzoomed, while the stack also holds the zoomed ones, so
   * this entry is the last unzoomed image only as long as no zoomed image
   * lies below it (see ZoomAddZoom).
   */
  function Original<T>(h: History<T>): (r: Option<T>)
    ensures r.Some? <==> 1 <= h.zoomImageIndex < |h.undo|
    ensures r.Some? ==> r.value == h.undo[h.zoomImageIndex - 1]
  {
    if h.zoomImageIndex < 1 || h.zoomImageIndex >= |h.undo| then None
    else Some(h.undo[h.zoomImageIndex - 1])
  }

  /** readPpmImage, once the image is read: clear both stacks, reset the index, add the image. */
  function Load<T>(img: T): (r: History<T>)
    ensures r == History([img], [], 1)
  {
    AddImage(History([], [], 0), img)
  }

  /**
   * The timeline: every image either stack holds, oldest first, the redo
   * stack read from its top down. Undo and redo only move the cursor along it.
   */
  function Timeline<T>(h: History<T>): seq<T> {
    h.undo + Reversed(h.redo)
  }

  function Reversed<T>(s: seq<T>): (r: seq<T>)
    ensures |r| == |s| && forall i :: 0 <= i < |s| ==> r[i] == s[|s| - 1 - i]
  {
    if |s| == 0 then [] else [s[|s| - 1]] + Reversed(s[..|s| - 1])
  }

  // ---------------------------------------------------------------- lemmas

  lemma ReversedPush<T>(s: seq<T>, x: T)
    ensures Reversed(s + [x]) == [x] + Reversed(s)
  {
    var r, t := Reversed(s + [x]), [x] + Reversed(s);
    assert |r| == |t|;
    forall i | 0 <= i < |r|
      ensures r[i] == t[i]
    {
      if i > 0 {
        assert r[i] == (s + [x])[|s| - i];
      }
    }
  }

  /** Undo and redo keep the timeline, hence what the two stacks hold together. */
  lemma UndoKeepsTimeline<T>(h: History<T>)
    ensures Timeline(Undo(h)) == Timeline(h)
    ensures multiset(Undo(h).undo) + multiset(Undo(h).redo) == multiset(h.undo) + multiset(h.redo)
    ensures Undo(h).zoomImageIndex == h.zoomImageIndex
  {
    if |h.undo| > 0 {
      var top := h.undo[|h.undo| - 1];
      var rest := h.undo[..|h.undo| - 1];
      assert h.undo == rest + [top];
      ReversedPush(h.redo, top);
      assert Timeline(Undo(h)) == rest + ([top] + Reversed(h.redo));
    }
  }

  lemma RedoKeepsTimeline<T>(h: History<T>)
    ensures Timeline(Redo(h)) == Timeline(h)
    ensures multiset(Redo(h).undo) + multiset(Redo(h).redo) == multiset(h.undo) + multiset(h.redo)
    ensures Redo(h).zoomImageIndex == h.zoomImageIndex
  {
    if |h.redo| > 0 {
      var top := h.redo[|h.redo| - 1];
      var rest := h.redo[..|h.redo| - 1];
      assert h.redo == rest + [top];
      ReversedPush(rest, top);
      assert Timeline(h) == h.undo + ([top] + Reversed(rest));
    }
  }

  /** Redo takes back an undo, and undo takes back a redo. */
  lemma RedoAfterUndo<T>(h: History<T>)
    requires |h.undo| > 0
    ensures Redo(Undo(h)) == h
  {
    assert h.undo[..|h.undo| - 1] + [h.undo[|h.undo| - 1]] == h.undo;
  }

  lemma UndoAfterRedo<T>(h: History<T>)
    requires |h.redo| > 0
    ensures Undo(Redo(h)) == h
  {
    assert h.redo[..|h.redo| - 1] + [h.redo[|h.redo| - 1]] == h.redo;
  }

  /** After an undo the image below the old top is current again, and the old top waits on the redo stack. */
  lemma UndoShowsPrevious<T>(h: History<T>)
    requires |h.undo| > 0
    ensures Current(Undo(h)) == (if |h.undo| == 1 then None else Some(h.undo[|h.undo| - 2]))
    ensures Current(Redo(Undo(h))) == Current(h)
  {
    RedoAfterUndo(h);
  }

  /** Adding an image discards what could be redone, and undoing it shows the image before it. */
  lemma AddThenUndo<T>(h: History<T>, img: T, zoomed: bool)
    ensures Redo(AddImageZoomed(h, img, zoomed)) == AddImageZoomed(h, img, zoomed)
    ensures Undo(AddImageZoomed(h, img, zoomed)).undo == h.undo
    ensures Current(Undo(AddImageZoomed(h, img, zoomed))) == Current(h)
  {
    var r := AddImageZoomed(h, img, zoomed);
    assert r.undo[..|r.undo| - 1] == h.undo;
  }

  /** After a load the loaded image is current, and there is no original to return to yet. */
  lemma LoadState<T>(img: T)
    ensures Current(Load(img)) == Some(img) && Original(Load(img)) == None
    ensures Undo(Load(img)) == History([], [img], 1) && Current(Undo(Load(img))) == None
  {
  }

  /** A run of zoomed images added one after another. */
  function AddZoomed<T>(h: History<T>, zooms: seq<T>): History<T> {
    if |zooms| == 0 then h else AddImageZoomed(AddZoomed(h, zooms[..|zooms| - 1]), zooms[|zooms| - 1], true)
  }

  /**
   * From a state whose index equals the stack size (after a load and
   * unzoomed adds only), zoomed adds keep the index, and the top of that
   * state becomes and stays the original.
   */
  lemma {:induction false} ZoomKeepsOriginal<T>(h: History<T>, zooms: seq<T>)
    requires |h.undo| > 0 && h.zoomImageIndex == |h.undo|
    ensures Original(AddZoomed(h, zooms)) == (if |zooms| == 0 then None else Some(h.undo[|h.undo| - 1]))
    ensures AddZoomed(h, zooms).zoomImageIndex == h.zoomImageIndex
  {
    if |zooms| > 0 {
      var before := AddZoomed(h, zooms[..|zooms| - 1]);
      ZoomKeepsOriginal(h, zooms[..|zooms| - 1]);
      PrefixOfAddZoomed(h, zooms[..|zooms| - 1]);
      assert before.undo[h.zoomImageIndex - 1] == h.undo[|h.undo| - 1];
    }
  }

  lemma {:induction false} PrefixOfAddZoomed<T>(h: History<T>, zooms: seq<T>)
    ensures |AddZoomed(h, zooms).undo| == |h.undo| + |zooms|
    ensures AddZoomed(h, zooms).undo[..|h.undo|] == h.undo
  {
    if |zooms| > 0 {
      PrefixOfAddZoomed(h, zooms[..|zooms| - 1]);
    }
  }

  /**
   * The index counts unzoomed images but is used as a position in a stack
   * that also holds zoomed ones. Load a, zoom to z, add an unzoomed d, zoom
   * to e: the "original" is then the zoomed image z, not d.
   */
  lemma ZoomAddZoom<T>(a: T, z: T, d: T, e: T)
    ensures var h := AddImageZoomed(AddImage(AddImageZoomed(Load(a), z, true), d), e, true);
      h.undo == [a, z, d, e] && h.zoomImageIndex == 2 && Original(h) == Some(z)
  {
  }

  /**
   * Undo does not move zoomImageIndex back. Load a, apply a transform giving
   * b, undo it, then zoom twice: the "original" is then the first zoomed
   * image z1, not a.
   */
  lemma UndoThenZoom<T>(a: T, b: T, z1: T, z2: T)
    ensures var h := Undo(AddImage(Load(a), b));
      Original(AddImageZoomed(h, z1, true)) == None &&
      Original(AddImageZoomed(AddImageZoomed(h, z1, true), z2, true)) == Some(z1)
  {
  }
}

/**
 * The multi-select editor (`src/script.js`): the frame list with its
 * `selectedItems` set, the drag payload and placeholder of an in-list drag,
 * the preview, the playback flags and the export. Each event handler is one
 * method; the page's module-level variables are the fields of `Editor`.
 *
 * Elements of `#frames-list` are identified by the frame id they carry, so the
 * list is kept as a sequence of `Entry` values. Handlers that rebuild the list
 * (`renderFramesList`) are only reachable while no in-list drag is under way,
 * which `Idle()` states.
 */
module MultiSelect {
  import opened Common
  import opened Frames
  import opened ListOrder
  import opened Selection
  import opened Preview
  import opened Playback
  import opened Export
  import Durations

  /**
   * The editor's state agrees with itself: ids are unique, the list shows exactly
   * the records in order plus at most one placeholder, which is there exactly
   * while a payload is being dragged, and the selection and the payload are sets
   * of present frames.
   */
  predicate Consistent(frames: seq<Frame>, selected: seq<Id>, dragged: seq<Id>, list: seq<Entry>)
  {
    && Distinct(Ids(frames))
    && Items(list) == Ids(frames)
    && PlaceholderCount(list) <= 1
    && (Placeholder in list <==> dragged != [])
    && Distinct(selected) && (forall x :: x in selected ==> x in Ids(frames))
    && Distinct(dragged) && (forall x :: x in dragged ==> x in Ids(frames))
  }

  /** Starting a drag keeps the page consistent: the payload is non-empty and the placeholder is in the list. */
  lemma DragStarted(frames: seq<Frame>, selected: seq<Id>, list: seq<Entry>, id: Id)
    requires Consistent(frames, selected, [], list) && Placeholder !in list && id in Ids(frames)
    ensures var p := DragSelection(selected, id);
      Consistent(frames, p, p, PlaceholderBefore(list, id))
  {
    var r := PlaceholderBefore(list, id);
    assert Placeholder in r;
  }

  class Editor {
    /** `frames`: the records in list order. */
    var frames: seq<Frame>
    /** `selectedItems`, in insertion order. */
    var selected: seq<Id>
    /** `draggedItems`, by id; while it is non-empty these items are hidden. */
    var dragged: seq<Id>
    /** The children of `#frames-list`. */
    var list: seq<Entry>
    /** The preview canvas and its status line. */
    var view: View
    /** `playing` and `playIndex`. */
    var playing: bool
    var playIndex: PlayIndex

    /** What every handler keeps. */
    predicate Valid()
      reads this
    {
      Consistent(frames, selected, dragged, list)
    }

    /** No in-list drag is under way: no placeholder, no payload. */
    predicate Idle()
      reads this
    {
      Placeholder !in list && dragged == []
    }

    /** The page as loaded: no frames, nothing selected, the preview cleared (`initCanvas`). */
    constructor ()
      ensures Valid() && Idle()
      ensures frames == [] && selected == [] && list == [] && view == Cleared
      ensures !playing && playIndex == Index(0)
    {
      frames, selected, dragged, list := [], [], [], [];
      view := Cleared;
      playing, playIndex := false, Index(0);
    }

    /** `renderFramesList`: one item per frame. */
    method RenderList()
      requires Distinct(Ids(frames)) && Distinct(selected) && (forall x :: x in selected ==> x in Ids(frames))
      modifies this
      ensures Valid() && Idle() && list == Render(frames)
      ensures frames == old(frames) && selected == old(selected) && view == old(view)
      ensures playing == old(playing) && playIndex == old(playIndex)
    {
      list, dragged := Render(frames), [];
      Rendered(frames, selected);
    }

    /**
     * `addFiles`: the image files among `files` become new records at the end of
     * the list, with the caller's fresh `ids`; when there were any, the list is
     * re-rendered and the first frame of the whole list is drawn.
     */
    method AddFiles(files: seq<File>, ids: seq<Id>)
      requires Valid() && Idle()
      requires |ids| == |ImageFiles(files)| && Distinct(ids)
      requires forall x :: x in ids ==> x !in Ids(frames)
      modifies this
      ensures Valid() && Idle()
      ensures var added := old(frames) + NewFrames(ImageFiles(files), ids);
        if ImageFiles(files) == [] then frames == old(frames) && view == old(view)
        else frames == CacheAt(added, 0) && view == DrawFrame(added, 0)
      ensures selected == old(selected) && playing == old(playing) && playIndex == old(playIndex)
    {
      var images := ImageFiles(files);
      if |images| == 0 {
        return;
      }
      var added := PushNewFrames(frames, images, ids);
      IdsAppend(frames, NewFrames(images, ids));
      DistinctConcat(Ids(frames), ids);
      frames := added;
      RenderList();
      view := DrawFrame(frames, 0);
      frames := CacheAt(frames, 0);
      ItemsOfRender(added);
    }

    /** `removeFrame(id)`: the frame and its selection go, the list is re-rendered, and an empty list clears the preview. */
    method RemoveFrame(id: Id)
      requires Valid() && Idle()
      modifies this
      ensures Valid() && Idle()
      ensures frames == RemoveId(old(frames), id) && id !in Ids(frames)
      ensures selected == Delete(old(selected), id)
      ensures view == if frames == [] then Cleared else old(view)
      ensures playing == old(playing) && playIndex == old(playIndex)
    {
      var remaining, kept := RemoveId(frames, id), Delete(selected, id);
      RemovalKeepsSelection(frames, selected, id);
      frames, selected := remaining, kept;
      if |remaining| == 0 {
        view := Cleared;
      }
      RenderList();
    }

    /** The remove-all button: with frames present and the dialog confirmed, everything is emptied and the preview cleared. */
    method RemoveAll(confirmed: bool)
      requires Valid() && Idle()
      modifies this
      ensures Valid() && Idle()
      ensures if old(frames) != [] && confirmed
        then frames == [] && selected == [] && list == [] && view == Cleared
        else frames == old(frames) && selected == old(selected) && list == old(list) && view == old(view)
      ensures playing == old(playing) && playIndex == old(playIndex)
    {
      if |frames| == 0 || !confirmed {
        return;
      }
      frames, selected := [], [];
      RenderList();
      view := Cleared;
    }

    /** The apply-to-all button: every frame gets the clamped duration, then the list is re-rendered. */
    method ApplyAll(text: string)
      requires Valid() && Idle()
      modifies this
      ensures Valid() && Idle()
      ensures frames == AllDurations(old(frames), Durations.AppliedDuration(text))
      ensures selected == old(selected) && view == old(view)
      ensures playing == old(playing) && playIndex == old(playIndex)
    {
      frames := Retimed(frames, Durations.AppliedDuration(text));
      RenderList();
    }

    /** A duration field's `change` event: the frame's duration becomes the edited value clamped at 10 ms. */
    method SetDuration(id: Id, text: string)
      requires Valid() && id in Ids(frames)
      modifies this
      ensures Valid()
      ensures var k := FindIndex(old(frames), id);
        frames == old(frames)[k := old(frames)[k].(duration := Durations.EditedDuration(Durations.MultiSelectMinimum, text))]
      ensures selected == old(selected) && dragged == old(dragged) && list == old(list) && view == old(view)
      ensures playing == old(playing) && playIndex == old(playIndex)
    {
      var k := FindIndex(frames, id);
      frames := frames[k := frames[k].(duration := Durations.EditedDuration(Durations.MultiSelectMinimum, text))];
      assert Ids(frames) == Ids(old(frames));
    }

    /** `handleSelectClick`: the selection changes as `Clicked` says and the clicked frame is drawn. */
    method Click(id: Id, shift: bool)
      requires Valid() && id in Ids(frames)
      modifies this
      ensures Valid()
      ensures selected == Clicked(old(selected), id, shift)
      ensures var k := FindIndex(old(frames), id);
        frames == CacheAt(old(frames), k) && view == DrawFrame(old(frames), k)
      ensures dragged == old(dragged) && list == old(list)
      ensures playing == old(playing) && playIndex == old(playIndex)
    {
      ClickedDistinct(selected, id, shift);
      selected := Clicked(selected, id, shift);
      var k := FindIndex(frames, id);
      view := DrawFrame(frames, k);
      frames := CacheAt(frames, k);
    }

    /**
     * `handleDragStart`: without shift, the payload is the (possibly reset)
     * selection in insertion order, and the placeholder goes right before the
     * dragged item; with shift nothing happens.
     */
    method DragStart(id: Id, shift: bool)
      requires Valid() && Idle() && id in Ids(frames)
      modifies this
      ensures Valid()
      ensures shift ==> selected == old(selected) && dragged == [] && list == old(list)
      ensures !shift ==> selected == DragSelection(old(selected), id) && dragged == selected
      ensures !shift ==> list == PlaceholderBefore(old(list), id)
      ensures frames == old(frames) && view == old(view)
      ensures playing == old(playing) && playIndex == old(playIndex)
    {
      if shift {
        return;
      }
      DragStarted(frames, selected, list, id);
      selected := DragSelection(selected, id);
      dragged := selected;
      list := PlaceholderBefore(list, id);
    }

    /**
     * The list's `dragover`: over an item that is not part of the payload, the
     * placeholder moves next to it, after it when the pointer is in its lower
     * half. Over the placeholder, over a payload item, or with no drag under way
     * nothing changes (without a placeholder the handler throws before moving anything).
     */
    method DragOver(target: Entry, y: real, top: real, height: real)
      requires Valid() && (target.Item? ==> target.id in Ids(frames)) && height >= 0.0
      modifies this
      ensures Valid()
      ensures if Placeholder !in old(list) || target == Placeholder || target.id in dragged
        then list == old(list)
        else list == PlacePlaceholder(old(list), target.id, InLowerHalf(y, top, height))
      ensures frames == old(frames) && selected == old(selected) && dragged == old(dragged) && view == old(view)
      ensures playing == old(playing) && playIndex == old(playIndex)
    {
      if Placeholder !in list || target == Placeholder || target.id in dragged {
        return;
      }
      list := PlacePlaceholder(list, target.id, InLowerHalf(y, top, height));
    }

    /**
     * The list's `drop`: every payload item is moved, in payload order, in front
     * of the placeholder; the placeholder is removed, the drag state reset and the
     * records re-ordered from the list. The records end up in `DropOrder`, a
     * permutation of the old ones. Without a placeholder nothing happens.
     */
    method Drop()
      requires Valid()
      modifies this
      ensures Valid() && Idle()
      ensures Placeholder !in old(list) ==> frames == old(frames) && list == old(list)
      ensures Placeholder in old(list) ==> Ids(frames) == DropOrder(old(list), old(dragged))
      ensures multiset(frames) == multiset(old(frames))
      ensures selected == old(selected) && view == old(view)
      ensures playing == old(playing) && playIndex == old(playIndex)
    {
      if Placeholder !in list {
        return;
      }
      var order, settled := Dropped(frames, list, dragged);
      frames, list, dragged := order, settled, [];
    }

    /** The list's `dragend`: any placeholder is removed and the payload shown again where it is. */
    method DragEnd()
      requires Valid()
      modifies this
      ensures Valid() && Idle()
      ensures list == RemovePlaceholder(old(list)) && Items(list) == Items(old(list))
      ensures frames == old(frames) && selected == old(selected) && view == old(view)
      ensures playing == old(playing) && playIndex == old(playIndex)
    {
      list := RemovePlaceholder(list);
      dragged := [];
    }

    /** `play`: with frames present, playback starts at the first frame. */
    method Play()
      requires Valid()
      modifies this
      ensures Valid()
      ensures if old(frames) == [] then playing == old(playing) && playIndex == old(playIndex)
        else playing && playIndex == Index(0)
      ensures frames == old(frames) && selected == old(selected) && dragged == old(dragged)
      ensures list == old(list) && view == old(view)
    {
      if |frames| == 0 {
        return;
      }
      playing, playIndex := true, Index(0);
    }

    /** `stop`: the loop ends at its next check. */
    method Stop()
      requires Valid()
      modifies this
      ensures Valid() && !playing && playIndex == old(playIndex)
      ensures frames == old(frames) && selected == old(selected) && dragged == old(dragged)
      ensures list == old(list) && view == old(view)
    {
      playing := false;
    }

    /** The Space key: stop when playing, else play. */
    method TogglePlayback()
      requires Valid()
      modifies this
      ensures Valid()
      ensures old(playing) ==> !playing && playIndex == old(playIndex)
      ensures !old(playing) && old(frames) != [] ==> playing && playIndex == Index(0)
      ensures !old(playing) && old(frames) == [] ==> !playing && playIndex == old(playIndex)
      ensures frames == old(frames) && selected == old(selected) && dragged == old(dragged)
      ensures list == old(list) && view == old(view)
    {
      if playing {
        Stop();
      } else {
        Play();
      }
    }

    /**
     * The head of one iteration of `while (playing) { ... }`: when `playing` is
     * still set, fetch `frames[playIndex]` and draw it. An index that is `NaN` or
     * past the end fetches `undefined`, and drawing it throws, which ends the loop.
     */
    method Tick() returns (t: Tick)
      requires Valid()
      modifies this
      ensures Valid()
      ensures !old(playing) ==> t == Exited && frames == old(frames) && view == old(view)
      ensures old(playing) && !Showable(old(playIndex), |old(frames)|) ==>
        t == Faulted && frames == old(frames) && view == old(view)
      ensures old(playing) && Showable(old(playIndex), |old(frames)|) ==>
        && t == Shown(old(playIndex).value)
        && frames == CacheAt(old(frames), old(playIndex).value) && view == DrawFrame(old(frames), old(playIndex).value)
      ensures playing == old(playing) && playIndex == old(playIndex) && selected == old(selected) && dragged == old(dragged) && list == old(list)
    {
      if !playing {
        return Exited;
      }
      if !Showable(playIndex, |frames|) {
        return Faulted;
      }
      t := Shown(playIndex.value);
      view := DrawFrame(frames, playIndex.value);
      frames := CacheAt(frames, playIndex.value);
    }

    /**
     * The tail of one iteration, once the frame's wait is over: the index advances
     * modulo the length the list has now, which other handlers may have changed
     * during the wait.
     */
    method Advance()
      requires Valid()
      modifies this
      ensures Valid()
      ensures playIndex == Advanced(old(playIndex), |frames|)
      ensures frames == old(frames) && view == old(view) && playing == old(playing) && selected == old(selected) && dragged == old(dragged) && list == old(list)
    {
      playIndex := Advanced(playIndex, |frames|);
    }

    /** `exportGIF` at an output size of `outW` by `outH`; the bitmaps it decodes stay cached on the records. */
    method Export(outW: real, outH: real) returns (r: ExportResult)
      requires Valid() && outW >= 0.0 && outH >= 0.0
      modifies this
      ensures Valid()
      ensures old(frames) == [] <==> r.NothingToExport?
      ensures r.Encoded? ==> r.workers == Workers && r.quality == Quality && r.repeat == RepeatForever
      ensures r.Encoded? ==> r.width == outW && r.height == outH && |r.submitted| == |old(frames)|
      ensures r.Encoded? ==> forall i :: 0 <= i < |old(frames)| ==> Rasterized(r.submitted[i], old(frames)[i], outW, outH)
      ensures |frames| == |old(frames)| && forall i :: 0 <= i < |frames| ==> frames[i] == Cache(old(frames)[i])
      ensures selected == old(selected) && dragged == old(dragged) && list == old(list) && view == old(view)
      ensures playing == old(playing) && playIndex == old(playIndex)
    {
      var cached;
      r, cached := ExportFrames(frames, outW, outH);
      assert Ids(cached) == Ids(frames);
      frames := cached;
    }
  }

  /** A freshly rendered list agrees with the records and a valid selection, with no drag under way. */
  lemma Rendered(frames: seq<Frame>, selected: seq<Id>)
    requires Distinct(Ids(frames)) && Distinct(selected) && (forall x :: x in selected ==> x in Ids(frames))
    ensures Consistent(frames, selected, [], Render(frames)) && Placeholder !in Render(frames)
  {
    ItemsOfRender(frames);
  }

  /** The apply-to-all loop: each record in turn gets duration `d`. */
  method Retimed(frames: seq<Frame>, d: int) returns (updated: seq<Frame>)
    ensures updated == AllDurations(frames, d)
  {
    updated := frames;
    var i := 0;
    while i < |updated|
      invariant 0 <= i <= |updated| && |updated| == |frames|
      invariant forall j :: 0 <= j < i ==> updated[j] == frames[j].(duration := d)
      invariant forall j :: i <= j < |updated| ==> updated[j] == frames[j]
    {
      updated := updated[i := updated[i].(duration := d)];
      i := i + 1;
    }
  }

  /**
   * The loop of `syncFramesFromDOM`: for each entry in order, the record
   * `frames.find` gives for its id is pushed onto the new order.
   */
  method ResyncedFrames(frames: seq<Frame>, list: seq<Entry>) returns (order: seq<Frame>)
    ensures order == Resync(frames, list)
  {
    order := [];
    var i := 0;
    while i < |list|
      invariant 0 <= i <= |list|
      invariant order == Resync(frames, list[..i])
    {
      var e := list[i];
      var found := if e.Item? then Find(frames, e.id) else None;
      if found.Some? {
        order := order + [found.value];
      }
      ResyncExtend(frames, list, i);
      i := i + 1;
    }
    assert list[..|list|] == list;
  }

  /** The drop's loop: each payload item, in payload order, is inserted before the placeholder. */
  method MovePayload(list: seq<Entry>, p: seq<Id>) returns (moved: seq<Entry>)
    requires PlaceholderCount(list) == 1 && Distinct(p)
    ensures var k := PlaceholderIndex(list);
      moved == Moved(list[..k], list[k + 1..], p, |p|)
  {
    var k := PlaceholderIndex(list);
    MovedAtStart(list, p);
    ghost var before, after := list[..k], list[k + 1..];
    moved := list;
    var i := 0;
    while i < |p|
      invariant 0 <= i <= |p|
      invariant moved == Moved(before, after, p, i)
    {
      MoveBeforeStep(before, after, p, i);
      moved := MoveBefore(moved, p[i]);
      i := i + 1;
    }
  }

  /** Removing a frame and deselecting it keeps the selection a set of present frames. */
  lemma RemovalKeepsSelection(frames: seq<Frame>, selected: seq<Id>, id: Id)
    requires Distinct(Ids(frames)) && Distinct(selected)
    requires forall x :: x in selected ==> x in Ids(frames)
    ensures Distinct(Ids(RemoveId(frames, id))) && Distinct(Delete(selected, id))
    ensures forall x :: x in Delete(selected, id) ==> x in Ids(RemoveId(frames, id))
  {
    RemoveIdKeepsDistinct(frames, id);
    DeleteDistinct(selected, id);
    forall x | x in Delete(selected, id) ensures x in Ids(RemoveId(frames, id)) {
      RemoveIdIds(frames, id, x);
    }
  }

  /**
   * The whole drop on values: the payload `p` is moved before the placeholder,
   * the placeholder removed and the records re-read in the list's order. The
   * records end up in `DropOrder`: a permutation of the old records with the
   * same ids, still unique, and the list shows them with no placeholder.
   */
  method Dropped(frames: seq<Frame>, list: seq<Entry>, p: seq<Id>) returns (order: seq<Frame>, settled: seq<Entry>)
    requires Distinct(Ids(frames)) && Items(list) == Ids(frames) && PlaceholderCount(list) == 1
    requires Distinct(p) && (forall x :: x in p ==> x in Ids(frames))
    ensures Placeholder !in settled && Items(settled) == Ids(order)
    ensures Ids(order) == DropOrder(list, p) && Distinct(Ids(order))
    ensures multiset(order) == multiset(frames)
    ensures forall x :: x in Ids(order) <==> x in Ids(frames)
  {
    var done := MovePayload(list, p);
    DropListOrder(list, p);
    DropOrderIsBlockMove(list, p);
    settled := RemovePlaceholder(done);
    ResyncIsPermutation(frames, settled);
    order := ResyncedFrames(frames, settled);
    SameMembers(Ids(order), Ids(frames));
  }

  /** Lists holding the same elements as multisets have the same members. */
  lemma SameMembers(a: seq<Id>, b: seq<Id>)
    requires multiset(a) == multiset(b)
    ensures forall x :: x in a <==> x in b
  {
    forall x ensures x in a <==> x in b {
      assert x in a <==> x in multiset(a);
      assert x in b <==> x in multiset(b);
    }
  }
}

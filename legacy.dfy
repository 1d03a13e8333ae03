/**
 * The single-drag editor (`script.js`): one frame is dragged at a time and
 * dropped onto another frame's item, which calls `reorderFrames`; there is no
 * selection, no apply-to-all and no remove-all, and a duration field clamps at
 * 50 ms. The page's variables `frames`, `playing` and `playIndex` and the
 * preview are the fields of `LegacyEditor`.
 */
module Legacy {
  import opened Common
  import opened Frames
  import opened ListOrder
  import opened Preview
  import opened Playback
  import opened Export
  import Durations

  /**
   * `reorderFrames(sourceId, targetId)`: when both ids are found, the source
   * record moves to the target's index; otherwise nothing changes.
   */
  function Reorder(frames: seq<Frame>, sourceId: Id, targetId: Id): (r: seq<Frame>)
    ensures |r| == |frames|
    ensures multiset(r) == multiset(frames) && multiset(Ids(r)) == multiset(Ids(frames))
    ensures sourceId !in Ids(frames) || targetId !in Ids(frames) ==> r == frames
    ensures sourceId in Ids(frames) && targetId in Ids(frames) ==>
      r[FindIndex(frames, targetId)] == frames[FindIndex(frames, sourceId)]
  {
    var si := FindIndex(frames, sourceId);
    var ti := FindIndex(frames, targetId);
    if si == -1 || ti == -1 then frames else MoveTo(frames, si, ti)
  }

  /**
   * `const [item] = frames.splice(i, 1); frames.splice(j, 0, item)`: the record
   * at `i` is taken out and inserted at index `j` of the shortened list, so that
   * it ends up at index `j`; the records are permuted.
   */
  function MoveTo(frames: seq<Frame>, i: nat, j: nat): (r: seq<Frame>)
    requires i < |frames| && j < |frames|
    ensures |r| == |frames| && r[j] == frames[i]
    ensures multiset(r) == multiset(frames) && multiset(Ids(r)) == multiset(Ids(frames))
  {
    var rest := frames[..i] + frames[i + 1..];
    MoveToPermutes(frames, i, j);
    rest[..j] + [frames[i]] + rest[j..]
  }

  lemma MoveToPermutes(frames: seq<Frame>, i: nat, j: nat)
    requires i < |frames| && j < |frames|
    ensures var rest := frames[..i] + frames[i + 1..];
      && multiset(rest[..j] + [frames[i]] + rest[j..]) == multiset(frames)
      && multiset(Ids(rest[..j] + [frames[i]] + rest[j..])) == multiset(Ids(frames))
  {
    var a, b := frames[..i], frames[i + 1..];
    var rest := a + b;
    assert frames == a + [frames[i]] + b;
    assert rest == rest[..j] + rest[j..];
    Respliced(a, frames[i], b, rest[..j], rest[j..]);
  }

  /** Taking a record out between `a` and `b` and putting it back between `c` and `d`, where `a + b == c + d`, permutes the records and their ids. */
  lemma Respliced(a: seq<Frame>, f: Frame, b: seq<Frame>, c: seq<Frame>, d: seq<Frame>)
    requires a + b == c + d
    ensures multiset(c + [f] + d) == multiset(a + [f] + b)
    ensures multiset(Ids(c + [f] + d)) == multiset(Ids(a + [f] + b))
  {
    IdsAroundOne(a, f, b);
    IdsAroundOne(c, f, d);
    assert multiset(Ids(c + [f] + d)) == multiset(Ids(c + d)) + multiset{f.id};
    assert multiset(Ids(a + [f] + b)) == multiset(Ids(a + b)) + multiset{f.id};
  }

  /** With unique ids, the records other than the moved one keep their relative order. */
  lemma ReorderKeepsOthers(frames: seq<Frame>, sourceId: Id, targetId: Id)
    requires Distinct(Ids(frames))
    ensures RemoveId(Reorder(frames, sourceId, targetId), sourceId) == RemoveId(frames, sourceId)
  {
    var si := FindIndex(frames, sourceId);
    var ti := FindIndex(frames, targetId);
    if si != -1 && ti != -1 {
      MoveToKeepsOthers(frames, si, ti);
    }
  }

  lemma MoveToKeepsOthers(frames: seq<Frame>, i: nat, j: nat)
    requires Distinct(Ids(frames)) && i < |frames| && j < |frames|
    ensures RemoveId(MoveTo(frames, i, j), frames[i].id) == RemoveId(frames, frames[i].id)
  {
    var f, rest := frames[i], frames[..i] + frames[i + 1..];
    assert RemoveId(frames, f.id) == rest by {
      RemoveIdAt(frames, i);
    }
    PutBack(rest, f, j);
  }

  /** Filtering out the id of `f` after inserting `f` into `rest`, which lacks the id, gives back `rest`. */
  lemma PutBack(rest: seq<Frame>, f: Frame, j: nat)
    requires f.id !in Ids(rest) && j <= |rest|
    ensures RemoveId(rest[..j] + [f] + rest[j..], f.id) == rest
  {
    assert rest[..j] + rest[j..] == rest;
    SplicedBack(rest[..j], f, rest[j..]);
  }

  /** Filtering out the id of `f` from `a + [f] + b`, when neither side has it, leaves `a + b`. */
  lemma SplicedBack(a: seq<Frame>, f: Frame, b: seq<Frame>)
    requires f.id !in Ids(a + b)
    ensures RemoveId(a + [f] + b, f.id) == a + b
  {
    IdsAppend(a, b);
    assert f.id !in Ids(a) && f.id !in Ids(b);
    RemoveAbsentId(a, f.id);
    RemoveAbsentId(b, f.id);
    assert RemoveId([f], f.id) == [];
    RemoveIdAppend(a, [f], f.id);
    assert RemoveId(a + [f], f.id) == a;
    RemoveIdAppend(a + [f], b, f.id);
  }

  /** Dropping a frame onto itself changes nothing. */
  lemma ReorderOntoItself(frames: seq<Frame>, id: Id)
    ensures Reorder(frames, id, id) == frames
  {
    var k := FindIndex(frames, id);
    if k != -1 {
      var rest := frames[..k] + frames[k + 1..];
      assert rest[..k] == frames[..k] && rest[k..] == frames[k + 1..];
      assert frames == frames[..k] + [frames[k]] + frames[k + 1..];
    }
  }

  /**
   * Where the moved frame lands relative to the target: dragged upwards it lands
   * just before the target, but dragged downwards it lands just after it.
   */
  lemma ReorderSide(frames: seq<Frame>, sourceId: Id, targetId: Id)
    requires sourceId in Ids(frames) && targetId in Ids(frames)
    ensures var si, ti, r := FindIndex(frames, sourceId), FindIndex(frames, targetId), Reorder(frames, sourceId, targetId);
      && (ti < si ==> r[ti + 1] == frames[ti])
      && (si < ti ==> r[ti - 1] == frames[ti])
  {
    MoveToSide(frames, FindIndex(frames, sourceId), FindIndex(frames, targetId));
  }

  lemma MoveToSide(frames: seq<Frame>, i: nat, j: nat)
    requires i < |frames| && j < |frames|
    ensures j < i ==> MoveTo(frames, i, j)[j + 1] == frames[j]
    ensures i < j ==> MoveTo(frames, i, j)[j - 1] == frames[j]
  {
    var rest := frames[..i] + frames[i + 1..];
    assert MoveTo(frames, i, j) == rest[..j] + [frames[i]] + rest[j..];
    if j < i {
      assert rest[j] == frames[j];
    } else if i < j {
      assert rest[j - 1] == frames[j];
    }
  }

  /** Reordering keeps ids unique. */
  lemma ReorderKeepsDistinct(frames: seq<Frame>, sourceId: Id, targetId: Id)
    requires Distinct(Ids(frames))
    ensures Distinct(Ids(Reorder(frames, sourceId, targetId)))
  {
    var ids := Ids(Reorder(frames, sourceId, targetId));
    forall x ensures multiset(ids)[x] <= 1 {
      DistinctCount(Ids(frames), x);
    }
    CountsDistinct(ids);
  }

  class LegacyEditor {
    /** `frames`: the records in list order (the list items are rendered from them). */
    var frames: seq<Frame>
    /** The preview canvas and its status line. */
    var view: View
    /** `playing` and `playIndex`. */
    var playing: bool
    var playIndex: PlayIndex

    predicate Valid()
      reads this
    {
      Distinct(Ids(frames))
    }

    /** The page as loaded (`initCanvas`). */
    constructor ()
      ensures Valid() && frames == [] && view == Cleared && !playing && playIndex == Index(0)
    {
      frames, view := [], Cleared;
      playing, playIndex := false, Index(0);
    }

    /** `addFiles`: the image files become new records at the end; when there were any the first frame is drawn. */
    method AddFiles(files: seq<File>, ids: seq<Id>)
      requires Valid()
      requires |ids| == |ImageFiles(files)| && Distinct(ids)
      requires forall x :: x in ids ==> x !in Ids(frames)
      modifies this
      ensures Valid()
      ensures var added := old(frames) + NewFrames(ImageFiles(files), ids);
        if ImageFiles(files) == [] then frames == old(frames) && view == old(view)
        else frames == CacheAt(added, 0) && view == DrawFrame(added, 0)
      ensures playing == old(playing) && playIndex == old(playIndex)
    {
      var images := ImageFiles(files);
      if |images| == 0 {
        return;
      }
      var added := PushNewFrames(frames, images, ids);
      IdsAppend(frames, NewFrames(images, ids));
      DistinctConcat(Ids(frames), ids);
      view := DrawFrame(added, 0);
      frames := CacheAt(added, 0);
    }

    /** `removeFrame(id)`: the frame goes, and an empty list clears the preview. */
    method RemoveFrame(id: Id)
      requires Valid()
      modifies this
      ensures Valid()
      ensures frames == RemoveId(old(frames), id)
      ensures view == if frames == [] then Cleared else old(view)
      ensures playing == old(playing) && playIndex == old(playIndex)
    {
      RemoveIdKeepsDistinct(frames, id);
      frames := RemoveId(frames, id);
      if |frames| == 0 {
        view := Cleared;
      }
    }

    /** A duration field's `change` event: the duration becomes the edited value clamped at 50 ms. */
    method SetDuration(id: Id, text: string)
      requires Valid() && id in Ids(frames)
      modifies this
      ensures Valid()
      ensures var k := FindIndex(old(frames), id);
        frames == old(frames)[k := old(frames)[k].(duration := Durations.EditedDuration(Durations.SingleDragMinimum, text))]
      ensures view == old(view) && playing == old(playing) && playIndex == old(playIndex)
    {
      var k := FindIndex(frames, id);
      frames := frames[k := frames[k].(duration := Durations.EditedDuration(Durations.SingleDragMinimum, text))];
      assert Ids(frames) == Ids(old(frames));
    }

    /** An item's `click`: its frame is drawn on the preview. */
    method Click(id: Id)
      requires Valid() && id in Ids(frames)
      modifies this
      ensures Valid()
      ensures var k := FindIndex(old(frames), id);
        frames == CacheAt(old(frames), k) && view == DrawFrame(old(frames), k)
      ensures playing == old(playing) && playIndex == old(playIndex)
    {
      var k := FindIndex(frames, id);
      view := DrawFrame(frames, k);
      frames := CacheAt(frames, k);
    }

    /**
     * `reorderFrames(sourceId, targetId)`, called from an item's `drop` with the
     * id the drag carried (which may name no frame at all) and the item's own id:
     * with both found, the source record is spliced out and then spliced back in
     * at the target's old index.
     */
    method ReorderFrames(sourceId: Id, targetId: Id)
      requires Valid()
      modifies this
      ensures Valid()
      ensures frames == Reorder(old(frames), sourceId, targetId)
      ensures view == old(view) && playing == old(playing) && playIndex == old(playIndex)
    {
      ReorderKeepsDistinct(frames, sourceId, targetId);
      var sourceIndex := FindIndex(frames, sourceId);
      var targetIndex := FindIndex(frames, targetId);
      if sourceIndex == -1 || targetIndex == -1 {
        return;
      }
      var item := frames[sourceIndex];
      frames := frames[..sourceIndex] + frames[sourceIndex + 1..];
      frames := frames[..targetIndex] + [item] + frames[targetIndex..];
    }

    /** `play`: with frames present, playback starts at the first frame. */
    method Play()
      requires Valid()
      modifies this
      ensures Valid()
      ensures if old(frames) == [] then playing == old(playing) && playIndex == old(playIndex)
        else playing && playIndex == Index(0)
      ensures frames == old(frames) && view == old(view)
    {
      if |frames| == 0 {
        return;
      }
      playing, playIndex := true, Index(0);
    }

    /** `stop`: the loop ends at its next check. */
    method Stop()
      requires Valid()
      modifies this
      ensures Valid() && !playing && playIndex == old(playIndex)
      ensures frames == old(frames) && view == old(view)
    {
      playing := false;
    }

    /** The Space key: stop when playing, else play. */
    method TogglePlayback()
      requires Valid()
      modifies this
      ensures Valid()
      ensures old(playing) ==> !playing && playIndex == old(playIndex)
      ensures !old(playing) && old(frames) != [] ==> playing && playIndex == Index(0)
      ensures !old(playing) && old(frames) == [] ==> !playing && playIndex == old(playIndex)
      ensures frames == old(frames) && view == old(view)
    {
      if playing {
        Stop();
      } else {
        Play();
      }
    }

    /**
     * The head of one iteration of `while (playing) { ... }`: when `playing` is
     * still set, fetch `frames[playIndex]` and draw it. An index that is `NaN` or
     * past the end fetches `undefined`, and drawing it throws, which ends the loop.
     */
    method Tick() returns (t: Tick)
      requires Valid()
      modifies this
      ensures Valid()
      ensures !old(playing) ==> t == Exited && frames == old(frames) && view == old(view)
      ensures old(playing) && !Showable(old(playIndex), |old(frames)|) ==>
        t == Faulted && frames == old(frames) && view == old(view)
      ensures old(playing) && Showable(old(playIndex), |old(frames)|) ==>
        && t == Shown(old(playIndex).value)
        && frames == CacheAt(old(frames), old(playIndex).value) && view == DrawFrame(old(frames), old(playIndex).value)
      ensures playing == old(playing) && playIndex == old(playIndex)
    {
      if !playing {
        return Exited;
      }
      if !Showable(playIndex, |frames|) {
        return Faulted;
      }
      t := Shown(playIndex.value);
      view := DrawFrame(frames, playIndex.value);
      frames := CacheAt(frames, playIndex.value);
    }

    /**
     * The tail of one iteration, once the frame's wait is over: the index advances
     * modulo the length the list has now, which other handlers may have changed
     * during the wait.
     */
    method Advance()
      requires Valid()
      modifies this
      ensures Valid()
      ensures playIndex == Advanced(old(playIndex), |frames|)
      ensures frames == old(frames) && view == old(view) && playing == old(playing)
    {
      playIndex := Advanced(playIndex, |frames|);
    }

    /** `exportGIF` at an output size of `outW` by `outH`. */
    method Export(outW: real, outH: real) returns (r: ExportResult)
      requires Valid() && outW >= 0.0 && outH >= 0.0
      modifies this
      ensures Valid()
      ensures old(frames) == [] <==> r.NothingToExport?
      ensures r.Encoded? ==> r.workers == Workers && r.quality == Quality && r.repeat == RepeatForever
      ensures r.Encoded? ==> r.width == outW && r.height == outH && |r.submitted| == |old(frames)|
      ensures r.Encoded? ==> forall i :: 0 <= i < |old(frames)| ==> Rasterized(r.submitted[i], old(frames)[i], outW, outH)
      ensures |frames| == |old(frames)| && forall i :: 0 <= i < |frames| ==> frames[i] == Cache(old(frames)[i])
      ensures view == old(view) && playing == old(playing) && playIndex == old(playIndex)
    {
      var cached;
      r, cached := ExportFrames(frames, outW, outH);
      assert Ids(cached) == Ids(frames);
      frames := cached;
    }
  }
}

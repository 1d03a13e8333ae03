/**
 * Frame records and the pure operations on the ordered frame list that both
 * editor versions share: filtering dropped files to images, building new
 * records, removal by id, `findIndex`, `find`, the decoded-bitmap cache and
 * duration updates.
 */
module Frames {
  import opened Common
  import opened Geometry
  import Durations

  /** Frame ids are the short strings `uid()` produces; here the caller supplies them. */
  type Id = string

  /** What `createImageBitmap` yields: only its size matters to the model. */
  datatype Bitmap = Bitmap(width: Positive, height: Positive)

  /** A dropped or chosen file: its name, its media type and the bitmap it decodes to. */
  datatype File = File(name: string, mime: string, image: Bitmap)

  /** `{id, file, name, duration, imgBitmap}`; `bitmap` is `None` until first drawn. */
  datatype Frame = Frame(id: Id, file: File, name: string, duration: int, bitmap: Option<Bitmap>)

  /** The ids of the frames, in order. */
  function Ids(frames: seq<Frame>): (ids: seq<Id>)
    ensures |ids| == |frames|
    ensures forall i :: 0 <= i < |frames| ==> ids[i] == frames[i].id
  {
    seq(|frames|, i requires 0 <= i < |frames| => frames[i].id)
  }

  lemma IdsAppend(a: seq<Frame>, b: seq<Frame>)
    ensures Ids(a + b) == Ids(a) + Ids(b)
  {
  }

  /** `file.type.startsWith('image/')`. */
  predicate IsImage(f: File)
  {
    |f.mime| >= 6 && f.mime[..6] == "image/"
  }

  /** `fileList.filter(f => f.type.startsWith('image/'))`. */
  function ImageFiles(files: seq<File>): (images: seq<File>)
    ensures |images| <= |files|
    ensures forall f :: f in images ==> IsImage(f)
    ensures forall f :: IsImage(f) ==> multiset(images)[f] == multiset(files)[f]
  {
    if files == [] then []
    else
      assert files == [files[0]] + files[1..];
      (if IsImage(files[0]) then [files[0]] else []) + ImageFiles(files[1..])
  }

  /** Filtering keeps input order: it distributes over concatenation. */
  lemma {:induction false} ImageFilesAppend(a: seq<File>, b: seq<File>)
    ensures ImageFiles(a + b) == ImageFiles(a) + ImageFiles(b)
  {
    if a == [] {
      assert a + b == b;
    } else {
      assert (a + b)[0] == a[0] && (a + b)[1..] == a[1..] + b;
      ImageFilesAppend(a[1..], b);
    }
  }

  /** A single file is kept exactly when it is an image. */
  lemma ImageFilesOne(f: File)
    ensures ImageFiles([f]) == if IsImage(f) then [f] else []
  {
    assert [f][1..] == [];
  }

  /** The record `addFiles` pushes for one image file. */
  function NewFrame(file: File, id: Id): Frame
  {
    Frame(id, file, file.name, Durations.InitialDuration, None)
  }

  /** The records the `addFiles` loop pushes, one per image file, with the given ids. */
  function NewFrames(images: seq<File>, ids: seq<Id>): (r: seq<Frame>)
    requires |ids| == |images|
    ensures |r| == |images| && Ids(r) == ids
    ensures forall i :: 0 <= i < |r| ==> r[i].file == images[i] && r[i].name == images[i].name
    ensures forall i :: 0 <= i < |r| ==> r[i].duration == Durations.InitialDuration && r[i].bitmap.None?
  {
    seq(|images|, i requires 0 <= i < |images| => NewFrame(images[i], ids[i]))
  }

  /** The `addFiles` loop: one new record per image file pushed onto the end of `frames`. */
  method PushNewFrames(frames: seq<Frame>, images: seq<File>, ids: seq<Id>) returns (added: seq<Frame>)
    requires |ids| == |images|
    ensures added == frames + NewFrames(images, ids)
  {
    ghost var pushed := NewFrames(images, ids);
    added := frames;
    var i := 0;
    while i < |images|
      invariant 0 <= i <= |images|
      invariant added == frames + pushed[..i]
    {
      added := added + [NewFrame(images[i], ids[i])];
      i := i + 1;
      assert pushed[..i] == pushed[..i - 1] + [pushed[i - 1]];
    }
    assert pushed[..|images|] == pushed;
  }

  /** `frames.filter(f => f.id !== id)`. */
  function RemoveId(frames: seq<Frame>, id: Id): (r: seq<Frame>)
    ensures id !in Ids(r)
    ensures multiset(r) <= multiset(frames)
  {
    if frames == [] then []
    else
      var head := if frames[0].id == id then [] else [frames[0]];
      var rest := RemoveId(frames[1..], id);
      IdsAppend(head, rest);
      assert multiset(frames) == multiset([frames[0]]) + multiset(frames[1..]) by {
        assert frames == [frames[0]] + frames[1..];
      }
      head + rest
  }

  /** Removal keeps exactly the frames with other ids. */
  lemma {:induction false} RemoveIdMembers(frames: seq<Frame>, id: Id, f: Frame)
    ensures f in RemoveId(frames, id) <==> f in frames && f.id != id
  {
    if frames != [] {
      RemoveIdMembers(frames[1..], id, f);
      assert frames == [frames[0]] + frames[1..];
    }
  }

  /** Removal keeps exactly the other ids. */
  lemma RemoveIdIds(frames: seq<Frame>, id: Id, x: Id)
    ensures x in Ids(RemoveId(frames, id)) <==> x in Ids(frames) && x != id
  {
    var r := RemoveId(frames, id);
    if x in Ids(r) {
      var i :| 0 <= i < |r| && Ids(r)[i] == x;
      RemoveIdMembers(frames, id, r[i]);
      var j :| 0 <= j < |frames| && frames[j] == r[i];
      assert Ids(frames)[j] == x;
    }
    if x in Ids(frames) && x != id {
      var j :| 0 <= j < |frames| && Ids(frames)[j] == x;
      RemoveIdMembers(frames, id, frames[j]);
      var i :| 0 <= i < |r| && r[i] == frames[j];
      assert Ids(r)[i] == x;
    }
  }

  /** Removal distributes over concatenation. */
  lemma {:induction false} RemoveIdAppend(a: seq<Frame>, b: seq<Frame>, id: Id)
    ensures RemoveId(a + b, id) == RemoveId(a, id) + RemoveId(b, id)
  {
    if a == [] {
      assert a + b == b;
    } else {
      assert (a + b)[0] == a[0] && (a + b)[1..] == a[1..] + b;
      RemoveIdAppend(a[1..], b, id);
    }
  }

  /** Removing an id that no frame has changes nothing. */
  lemma {:induction false} RemoveAbsentId(frames: seq<Frame>, id: Id)
    requires id !in Ids(frames)
    ensures RemoveId(frames, id) == frames
  {
    if frames != [] {
      assert Ids(frames[1..]) == Ids(frames)[1..];
      RemoveAbsentId(frames[1..], id);
    }
  }

  /** The first record's id does not recur, and the rest have unique ids. */
  lemma DistinctIdsTail(frames: seq<Frame>)
    requires Distinct(Ids(frames)) && frames != []
    ensures frames[0].id !in Ids(frames[1..]) && Distinct(Ids(frames[1..]))
  {
    var ids, tail := Ids(frames), Ids(frames[1..]);
    forall j | 0 <= j < |tail| ensures tail[j] != frames[0].id {
      assert ids[0] != ids[j + 1];
    }
    forall i, j | 0 <= i < j < |tail| ensures tail[i] != tail[j] {
      assert ids[i + 1] != ids[j + 1];
    }
  }

  /** With unique ids, removal cuts out exactly one record and keeps the others in order. */
  lemma {:induction false} RemoveIdAt(frames: seq<Frame>, k: nat)
    requires Distinct(Ids(frames))
    requires k < |frames|
    ensures RemoveId(frames, frames[k].id) == frames[..k] + frames[k + 1..]
  {
    var id := frames[k].id;
    var tail := frames[1..];
    DistinctIdsTail(frames);
    if k == 0 {
      RemoveAbsentId(tail, id);
    } else {
      assert tail[k - 1].id == id;
      assert frames[0].id != id;
      RemoveIdAt(tail, k - 1);
      assert RemoveId(frames, id) == [frames[0]] + RemoveId(tail, id);
      CutAfterHead(frames, k);
    }
  }

  lemma CutAfterHead<T>(s: seq<T>, k: nat)
    requires 0 < k < |s|
    ensures s[..k] + s[k + 1..] == [s[0]] + (s[1..][..k - 1] + s[1..][k..])
  {
    assert s[..k] == [s[0]] + s[1..][..k - 1];
    assert s[k + 1..] == s[1..][k..];
  }

  /** Removal keeps unique ids unique. */
  lemma {:induction false} RemoveIdKeepsDistinct(frames: seq<Frame>, id: Id)
    requires Distinct(Ids(frames))
    ensures Distinct(Ids(RemoveId(frames, id)))
  {
    if frames != [] {
      var tail := frames[1..];
      DistinctIdsTail(frames);
      RemoveIdKeepsDistinct(tail, id);
      if frames[0].id != id {
        RemoveIdIds(tail, id, frames[0].id);
        IdsAppend([frames[0]], RemoveId(tail, id));
        DistinctConcat([frames[0].id], Ids(RemoveId(tail, id)));
      }
    }
  }

  /** `frames.findIndex(f => f.id === id)`: the first match, or -1. */
  function FindIndex(frames: seq<Frame>, id: Id): (k: int)
    ensures -1 <= k < |frames|
    ensures k == -1 <==> id !in Ids(frames)
    ensures k >= 0 ==> frames[k].id == id && forall j :: 0 <= j < k ==> frames[j].id != id
  {
    if frames == [] then -1
    else if frames[0].id == id then 0
    else
      var k := FindIndex(frames[1..], id);
      assert Ids(frames[1..]) == Ids(frames)[1..];
      if k == -1 then -1 else k + 1
  }

  /** `frames.find(f => f.id === id)`: the first frame with the id. */
  function Find(frames: seq<Frame>, id: Id): (r: Option<Frame>)
    ensures r.None? <==> id !in Ids(frames)
    ensures r.Some? ==> r.value in frames && r.value.id == id
    ensures r.Some? ==> r.value == frames[FindIndex(frames, id)]
  {
    if frames == [] then None
    else if frames[0].id == id then Some(frames[0])
    else
      assert Ids(frames[1..]) == Ids(frames)[1..];
      Find(frames[1..], id)
  }

  /** `frame.imgBitmap || await createImageBitmap(frame.file)`, stored back into the record. */
  function Cache(f: Frame): (g: Frame)
    ensures g.bitmap.Some?
    ensures f.bitmap.Some? ==> g == f
    ensures f.bitmap.None? ==> g == f.(bitmap := Some(f.file.image))
  {
    if f.bitmap.Some? then f else f.(bitmap := Some(f.file.image))
  }

  /** The bitmap a frame is drawn with: the cached one, else a fresh decode. */
  function Decoded(f: Frame): Bitmap
  {
    Cache(f).bitmap.value
  }

  /** Caching twice is caching once, and caching does not change what is drawn. */
  lemma CacheIdempotent(f: Frame)
    ensures Cache(Cache(f)) == Cache(f)
    ensures Decoded(Cache(f)) == Decoded(f)
  {
  }

  /** Every frame's duration set to `d`, nothing else changed (the apply-to-all loop's effect). */
  function AllDurations(frames: seq<Frame>, d: int): (r: seq<Frame>)
    ensures |r| == |frames|
    ensures forall i :: 0 <= i < |frames| ==> r[i] == frames[i].(duration := d)
    ensures Ids(r) == Ids(frames)
  {
    seq(|frames|, i requires 0 <= i < |frames| => frames[i].(duration := d))
  }
}

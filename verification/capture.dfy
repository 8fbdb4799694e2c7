/**
 The video source as `cv2.VideoCapture` presents it to the extractor: a
 handle that either opened or did not, a stream of frames read in order from
 a cursor, and a count of `release()` calls. Decoding itself is not modelled:
 the frames the decoder would produce are given up front.
 */
module Capture {
  import opened Wrappers
  import opened Files

  /** An open-or-failed `cv2.VideoCapture` handle over the frames it would deliver. */
  datatype Handle = Handle(isOpened: bool, frames: seq<Frame>, cursor: nat, releases: nat)

  /** `cv2.VideoCapture(path)`; `None` is a source the backend cannot open. */
  function Open(video: Option<seq<Frame>>): (cap: Handle)
    ensures cap.isOpened <==> video.Some?
    ensures cap.isOpened ==> cap.frames == video.value
    ensures cap.cursor == 0 && cap.releases == 0
  {
    match video
    case Some(frames) => Handle(true, frames, 0, 0)
    case None => Handle(false, [], 0, 0)
  }

  /** A read can deliver a frame: the source is open, not released, and not exhausted. */
  predicate HasNext(cap: Handle) {
    cap.isOpened && cap.releases == 0 && cap.cursor < |cap.frames|
  }

  /**
   `cap.read()`: the next frame and the advanced handle, or `None` (the
   `ret == False` case) with the handle unchanged.
   */
  function Read(cap: Handle): (r: (Option<Frame>, Handle))
    ensures r.0.Some? <==> HasNext(cap)
    ensures r.0.Some? ==> r.0.value == cap.frames[cap.cursor] && r.1 == cap.(cursor := cap.cursor + 1)
    ensures r.0.None? ==> r.1 == cap
  {
    if HasNext(cap) then (Some(cap.frames[cap.cursor]), cap.(cursor := cap.cursor + 1))
    else (None, cap)
  }

  /** `cap.release()`. */
  function Release(cap: Handle): Handle {
    cap.(releases := cap.releases + 1)
  }

  /** `k` successive `cap.read()` calls: the frames they deliver, in order, and the handle after them. */
  function ReadMany(cap: Handle, k: nat): (seq<Frame>, Handle)
    decreases k
  {
    if k == 0 then ([], cap)
    else
      var (got, before) := ReadMany(cap, k - 1);
      var (next, after) := Read(before);
      (if next.Some? then got + [next.value] else got, after)
  }

  /**
   Reading a freshly opened source `k` times, for `k` up to the stream's
   length, delivers exactly the first `k` frames in stream order and leaves
   the cursor after them.
   */
  lemma {:induction false} ReadsDeliverStream(frames: seq<Frame>, k: nat)
    requires k <= |frames|
    ensures ReadMany(Open(Some(frames)), k) == (frames[..k], Open(Some(frames)).(cursor := k))
  {
    if k > 0 {
      ReadsDeliverStream(frames, k - 1);
      assert frames[..k - 1] + [frames[k - 1]] == frames[..k];
    }
  }

  /**
   Once a handle cannot deliver a frame (it never opened, it is exhausted, or
   it was released), every further read yields nothing and leaves it as it is.
   */
  lemma {:induction false} ReadsAfterEnd(cap: Handle, k: nat)
    requires !HasNext(cap)
    ensures ReadMany(cap, k) == ([], cap)
  {
    if k > 0 {
      ReadsAfterEnd(cap, k - 1);
    }
  }

  /**
   `release()` keeps the stream and the position, and no read after it
   delivers a frame.
   */
  lemma ReleaseEndsReads(cap: Handle, k: nat)
    ensures Release(cap).frames == cap.frames && Release(cap).cursor == cap.cursor
    ensures ReadMany(Release(cap), k) == ([], Release(cap))
  {
    ReadsAfterEnd(Release(cap), k);
  }

  /** Reading a stream of `n` frames `n` times exhausts it. */
  lemma ReadsExhaustStream(frames: seq<Frame>)
    ensures !HasNext(ReadMany(Open(Some(frames)), |frames|).1)
    ensures ReadMany(Open(Some(frames)), |frames|).0 == frames
  {
    ReadsDeliverStream(frames, |frames|);
  }
}

/**
 `video_to_images(video_path, image_format)`: derive the output directory,
 make sure it exists, open the video, write every frame under its index until
 a read returns nothing, release the video, and report how many were saved.
 */
module Extractor {
  import opened Wrappers
  import opened Paths
  import opened Naming
  import opened Files
  import opened Capture

  /** How a run ends, with the filesystem it leaves behind. */
  datatype Outcome =
    | /** `os.makedirs` raised before the video was touched. */
      MakeDirsRaised(fs: FileSystem)
    | /** The video did not open; the function returned early. */
      NotOpened(fs: FileSystem, cap: Handle)
    | /** The stream was read to its end; `count` is the number reported. */
      Finished(fs: FileSystem, cap: Handle, count: nat, writes: seq<(string, Frame)>)

  /** The `cv2.imwrite` calls a run makes for a stream, in order: frame `i` to the path for index `i`. */
  function ExpectedWrites(outputDir: string, imageFormat: string, frames: seq<Frame>): (ws: seq<(string, Frame)>)
    ensures |ws| == |frames|
    decreases |frames|
  {
    if frames == [] then []
    else
      var n := |frames| - 1;
      ExpectedWrites(outputDir, imageFormat, frames[..n]) + [(FramePath(outputDir, n, imageFormat), frames[n])]
  }

  /** Write `i` of a run is frame `i` of the stream, sent to the path for index `i`. */
  lemma {:induction false} ExpectedWritesAt(outputDir: string, imageFormat: string, frames: seq<Frame>)
    ensures forall i | 0 <= i < |frames| ::
      ExpectedWrites(outputDir, imageFormat, frames)[i] == (FramePath(outputDir, i, imageFormat), frames[i])
    decreases |frames|
  {
    if frames != [] {
      var n := |frames| - 1;
      ExpectedWritesAt(outputDir, imageFormat, frames[..n]);
    }
  }

  /** Every path a run writes to ends in a dot and the run's format. */
  lemma ExpectedWritesExtension(outputDir: string, imageFormat: string, frames: seq<Frame>)
    ensures forall i | 0 <= i < |frames| ::
      EndsWith(ExpectedWrites(outputDir, imageFormat, frames)[i].0, [ExtSep] + imageFormat)
  {
    ExpectedWritesAt(outputDir, imageFormat, frames);
    forall i | 0 <= i < |frames|
      ensures EndsWith(FramePath(outputDir, i, imageFormat), [ExtSep] + imageFormat)
    {
      FramePathEndsWithFormat(outputDir, i, imageFormat);
    }
  }

  /** The paths named after frame indices `0 .. count - 1`. */
  function FramePaths(outputDir: string, imageFormat: string, count: nat): set<string> {
    set i | 0 <= i < count :: FramePath(outputDir, i, imageFormat)
  }

  /** No two frames of one run are written to the same path. */
  lemma ExpectedWritesDistinct(outputDir: string, imageFormat: string, frames: seq<Frame>)
    ensures DistinctPaths(ExpectedWrites(outputDir, imageFormat, frames))
    ensures WrittenPaths(ExpectedWrites(outputDir, imageFormat, frames)) == FramePaths(outputDir, imageFormat, |frames|)
  {
    var ws := ExpectedWrites(outputDir, imageFormat, frames);
    ExpectedWritesAt(outputDir, imageFormat, frames);
    forall i, j | 0 <= i < j < |ws|
      ensures ws[i].0 != ws[j].0
    {
      if ws[i].0 == ws[j].0 {
        FramePathInjective(outputDir, i, j, imageFormat);
      }
    }
    forall p | p in FramePaths(outputDir, imageFormat, |frames|)
      ensures p in WrittenPaths(ws)
    {
      var i :| 0 <= i < |frames| && p == FramePath(outputDir, i, imageFormat);
      assert ws[i] in ws;
    }
  }

  /** One more frame read adds exactly one write, at the end. */
  lemma ExpectedWritesStep(outputDir: string, imageFormat: string, frames: seq<Frame>, k: nat)
    requires k < |frames|
    ensures ExpectedWrites(outputDir, imageFormat, frames[..k + 1])
      == ExpectedWrites(outputDir, imageFormat, frames[..k]) + [(FramePath(outputDir, k, imageFormat), frames[k])]
  {
    assert frames[..k + 1][..k] == frames[..k];
  }

  /**
   The read/write loop: read frames until a read returns nothing, writing
   each one under the current counter and then incrementing it. It stops
   exactly when the stream is exhausted, having written every frame once, in
   stream order.
   */
  method SaveFrames(outputDir: string, imageFormat: string, start: Handle, files: map<string, Frame>)
    returns (cap: Handle, disk: map<string, Frame>, frameCount: nat, writes: seq<(string, Frame)>)
    requires start.isOpened && start.releases == 0 && start.cursor == 0
    ensures cap == start.(cursor := |start.frames|)
    ensures frameCount == |start.frames|
    ensures writes == ExpectedWrites(outputDir, imageFormat, start.frames)
    ensures disk == ApplyWrites(files, writes)
  {
    cap := start;
    disk := files;
    frameCount := 0;
    writes := [];
    while true
      invariant cap == start.(cursor := frameCount) && frameCount <= |start.frames|
      invariant writes == ExpectedWrites(outputDir, imageFormat, start.frames[..frameCount])
      invariant disk == ApplyWrites(files, writes)
      decreases |start.frames| - frameCount
    {
      var step := Read(cap);
      if step.0.None? {
        break;
      }
      var frame := step.0.value;
      assert frame == start.frames[frameCount];
      var framePath := FramePath(outputDir, frameCount, imageFormat);
      ExpectedWritesStep(outputDir, imageFormat, start.frames, frameCount);
      ApplyWritesStep(files, writes, (framePath, frame));
      writes := writes + [(framePath, frame)];
      disk := disk[framePath := frame];
      cap := step.1;
      frameCount := frameCount + 1;
    }
    assert start.frames[..frameCount] == start.frames;
  }

  /**
   What a run of the extractor on `videoPath` and `imageFormat` may end in,
   given the decoder's view `video` of the source and the filesystem `fs`
   before it. An empty directory name makes `os.makedirs` raise before
   anything changes. Otherwise the directory exists afterwards, at most it
   was added, and the run either finds the source unopenable (no file
   written, handle not released) or reads the whole stream, releases the
   handle once, and writes frame `i` to the path for index `i` in order.
   */
  predicate RunOutcome(videoPath: string, imageFormat: string, video: Option<seq<Frame>>, fs: FileSystem, r: Outcome) {
    var dir := OutputDir(videoPath);
    && (r.MakeDirsRaised? <==> dir == [])
    && (r.MakeDirsRaised? ==> r.fs == fs)
    && (!r.MakeDirsRaised? ==>
      && Exists(r.fs, dir)
      && fs.dirs <= r.fs.dirs <= fs.dirs + {dir}
      && (Exists(fs, dir) ==> r.fs.dirs == fs.dirs))
    && (r.NotOpened? <==> dir != [] && video.None?)
    && (r.NotOpened? ==> r.fs.files == fs.files && !r.cap.isOpened && r.cap.releases == 0)
    && (r.Finished? ==>
      && video.Some?
      && r.count == |video.value|
      && r.cap.cursor == |r.cap.frames| && r.cap.frames == video.value
      && r.cap.releases == 1
      && r.writes == ExpectedWrites(dir, imageFormat, video.value)
      && r.fs.files == ApplyWrites(fs.files, r.writes))
  }

  /**
   The whole run. `video` is what the decoder would deliver (`None` when the
   source does not open) and `fs` the filesystem before the call.
   */
  method VideoToImages(videoPath: string, imageFormat: string, video: Option<seq<Frame>>, fs: FileSystem)
    returns (r: Outcome)
    ensures RunOutcome(videoPath, imageFormat, video, fs, r)
  {
    var outputDir := OutputDir(videoPath);
    var ensured := EnsureDir(fs, outputDir);
    if ensured.None? {
      return MakeDirsRaised(fs);
    }
    var disk := ensured.value;
    var cap := Open(video);
    if !cap.isOpened {
      return NotOpened(disk, cap);
    }
    var files, frameCount, writes;
    cap, files, frameCount, writes := SaveFrames(outputDir, imageFormat, cap, disk.files);
    cap := Release(cap);
    return Finished(disk.(files := files), cap, frameCount, writes);
  }

  /**
   What a finished run leaves on disk: frame `i` of the stream under the path
   for index `i`, for exactly the indices `0 .. |frames| - 1`, and every other
   file as it was. `VideoToImages` promises that a finished run's files are
   `ApplyWrites(fs.files, ExpectedWrites(...))`.
   */
  lemma FinishedRunContents(outputDir: string, imageFormat: string, frames: seq<Frame>, files: map<string, Frame>)
    ensures var after := ApplyWrites(files, ExpectedWrites(outputDir, imageFormat, frames));
      && after.Keys == files.Keys + FramePaths(outputDir, imageFormat, |frames|)
      && (forall i | 0 <= i < |frames| ::
            FramePath(outputDir, i, imageFormat) in after && after[FramePath(outputDir, i, imageFormat)] == frames[i])
      && (forall p | p in files && p !in FramePaths(outputDir, imageFormat, |frames|) ::
            p in after && after[p] == files[p])
  {
    var writes := ExpectedWrites(outputDir, imageFormat, frames);
    ExpectedWritesDistinct(outputDir, imageFormat, frames);
    ExpectedWritesAt(outputDir, imageFormat, frames);
    ApplyDistinctWrites(files, writes);
    forall i | 0 <= i < |frames|
      ensures ApplyWrites(files, writes)[FramePath(outputDir, i, imageFormat)] == frames[i]
    {
      assert writes[i] == (FramePath(outputDir, i, imageFormat), frames[i]);
    }
  }
}

/**
 The part of the filesystem the extractor touches: a set of directory paths
 and a map from file path to the picture written there. Pictures are opaque.
 */
module Files {
  import opened Wrappers

  /** One decoded picture; its pixels are carried but never inspected. */
  datatype Frame = Frame(pixels: seq<int>)

  datatype FileSystem = FileSystem(dirs: set<string>, files: map<string, Frame>)

  /** `os.path.exists(p)`: true for a directory or a file; the empty path never exists. */
  predicate Exists(fs: FileSystem, p: string) {
    p != [] && (p in fs.dirs || p in fs.files)
  }

  /**
   The directory check of the extractor: when nothing exists at `dir`,
   `os.makedirs(dir)` creates it; otherwise nothing changes. `os.makedirs("")`
   raises, which is `None` here.
   */
  function EnsureDir(fs: FileSystem, dir: string): (r: Option<FileSystem>)
    ensures r.None? <==> dir == []
    ensures r.Some? ==> Exists(r.value, dir) && r.value.files == fs.files
    ensures Exists(fs, dir) ==> r == Some(fs)
    ensures r.Some? && !Exists(fs, dir) ==> r.value.dirs == fs.dirs + {dir}
  {
    if Exists(fs, dir) then Some(fs)
    else if dir == [] then None
    else Some(fs.(dirs := fs.dirs + {dir}))
  }

  /** Ensuring a directory a second time changes nothing. */
  lemma EnsureDirIdempotent(fs: FileSystem, dir: string)
    requires EnsureDir(fs, dir).Some?
    ensures EnsureDir(EnsureDir(fs, dir).value, dir) == EnsureDir(fs, dir)
  {
  }

  /**
   Applies a sequence of `cv2.imwrite(path, frame)` calls, in order, to a
   file map; a later write to a path replaces an earlier one.
   */
  function ApplyWrites(files: map<string, Frame>, writes: seq<(string, Frame)>): (r: map<string, Frame>)
    ensures r.Keys == files.Keys + WrittenPaths(writes)
    ensures writes != [] ==> r[writes[|writes| - 1].0] == writes[|writes| - 1].1
    decreases |writes|
  {
    if writes == [] then files
    else
      var last := writes[|writes| - 1];
      assert writes == writes[..|writes| - 1] + [last];
      assert WrittenPaths(writes) == WrittenPaths(writes[..|writes| - 1]) + {last.0};
      ApplyWrites(files, writes[..|writes| - 1])[last.0 := last.1]
  }

  /** Appending one write applies it on top of the earlier ones. */
  lemma ApplyWritesStep(files: map<string, Frame>, writes: seq<(string, Frame)>, w: (string, Frame))
    ensures ApplyWrites(files, writes + [w]) == ApplyWrites(files, writes)[w.0 := w.1]
  {
    assert (writes + [w])[..|writes|] == writes;
  }

  /**
   After the directory step and a sequence of writes, a path exists exactly
   when it existed before, is the ensured directory, or was written to; the
   empty path still does not exist.
   */
  lemma ExistsAfterRun(fs: FileSystem, dir: string, writes: seq<(string, Frame)>)
    requires EnsureDir(fs, dir).Some?
    ensures var after := FileSystem(EnsureDir(fs, dir).value.dirs, ApplyWrites(fs.files, writes));
      && (forall p :: Exists(after, p) <==> Exists(fs, p) || p == dir || (p != [] && p in WrittenPaths(writes)))
      && !Exists(after, [])
  {
  }

  /** The paths a sequence of writes touches. */
  function WrittenPaths(writes: seq<(string, Frame)>): set<string> {
    set w | w in writes :: w.0
  }

  predicate DistinctPaths(writes: seq<(string, Frame)>) {
    forall i, j | 0 <= i < j < |writes| :: writes[i].0 != writes[j].0
  }

  /**
   When no two writes share a path, each written path holds the frame written
   to it, the written paths are added to the map's keys, and every other file
   keeps its content.
   */
  lemma {:induction false} ApplyDistinctWrites(files: map<string, Frame>, writes: seq<(string, Frame)>)
    requires DistinctPaths(writes)
    ensures forall i | 0 <= i < |writes| :: ApplyWrites(files, writes)[writes[i].0] == writes[i].1
    ensures forall p | p in files && p !in WrittenPaths(writes) :: ApplyWrites(files, writes)[p] == files[p]
    decreases |writes|
  {
    if writes != [] {
      var n := |writes| - 1;
      var front := writes[..n];
      assert writes == front + [writes[n]];
      ApplyDistinctWrites(files, front);
      forall i | 0 <= i < n
        ensures ApplyWrites(files, writes)[writes[i].0] == writes[i].1
      {
        assert front[i] == writes[i];
      }
    }
  }
}

/**
 How the extractor names what it writes: the output directory after the
 video's base name without its extension, and one file per frame called
 `frame_<index as :06d>.<format>` inside it.
 */
module Naming {
  import opened Paths
  import opened Decimal

  /**
   `os.path.splitext(os.path.basename(videoPath))[0]`: the video's file name
   with its last extension removed. A name without an extension, or whose
   only dots are leading ones, is kept whole.
   */
  function OutputDir(videoPath: string): string {
    SplitExt(Basename(videoPath)).0
  }

  /**
   The directory name is a separator-free prefix of the base name; what it
   leaves off is empty or a single dot-led extension with no further dot, cut
   after a name that is not all dots. When the base name has an extension,
   the directory name is the base name cut where that extension starts; the
   base name is kept whole exactly when it has no extension.
   */
  lemma OutputDirSpec(videoPath: string)
    ensures var dir := OutputDir(videoPath);
      var base := Basename(videoPath);
      && Sep !in dir
      && |dir| <= |base| && dir == base[..|dir|]
      && (var ext := base[|dir|..];
          ext == [] || (ext[0] == ExtSep && ExtSep !in ext[1..] && !AllDots(dir)))
      && (forall k | ExtensionStartsAt(base, k) :: dir == base[..k])
      && (dir == base <==> forall k :: !ExtensionStartsAt(base, k))
  {
    var base := Basename(videoPath);
    SplitExtSpec(base);
    StemOf(base);
    forall k | ExtensionStartsAt(base, k)
      ensures OutputDir(videoPath) == base[..k]
    {
      SplitExtAt(base, k);
    }
  }

  /** What splitting the extension off a name without separators leaves and removes. */
  lemma StemOf(base: string)
    requires Sep !in base
    ensures var (root, ext) := SplitExt(base);
      && Sep !in root
      && |root| <= |base| && root == base[..|root|] && ext == base[|root|..]
      && (ext == [] || (ext[0] == ExtSep && ExtSep !in ext[1..] && !AllDots(root)))
  {
    var (root, ext) := SplitExt(base);
    SplitExtSpec(base);
    assert base == root + ext;
    assert root == base[..|root|] && ext == base[|root|..];
    assert Sep !in root by {
      assert forall i | 0 <= i < |root| :: root[i] == base[i];
    }
    if ext != [] {
      ExtensionShape(base, root, ext);
    }
  }

  lemma ExtensionShape(base: string, root: string, ext: string)
    requires base == root + ext && ext != [] && ExtensionStartsAt(base, |root|)
    ensures ext[0] == ExtSep && ExtSep !in ext[1..] && !AllDots(root)
  {
    var j :| 0 <= j < |root| && base[j] != ExtSep && forall i | j <= i < |root| :: base[i] != Sep;
    assert root[j] == base[j];
    assert forall i | 1 <= i < |ext| :: ext[i] == base[|root| + i];
  }

  /** `f"frame_{n:06d}.{imageFormat}"`. */
  function FrameFileName(n: nat, imageFormat: string): string {
    "frame_" + Pad6(n) + [ExtSep] + imageFormat
  }

  /**
   The parts of a frame's file name can be cut back out of it: the prefix
   `frame_`, the zero-padded number (its shape is `Pad6Spec`), and the
   format after a dot.
   */
  lemma FrameFileNameLayout(n: nat, imageFormat: string)
    ensures var name := FrameFileName(n, imageFormat);
      && |name| == 7 + |Pad6(n)| + |imageFormat|
      && name[..6] == "frame_"
      && name[6..6 + |Pad6(n)|] == Pad6(n)
      && name[6 + |Pad6(n)|..] == [ExtSep] + imageFormat
  {
  }

  /** `os.path.join(outputDir, FrameFileName(n, imageFormat))`. */
  function FramePath(outputDir: string, n: nat, imageFormat: string): string {
    Join(outputDir, FrameFileName(n, imageFormat))
  }

  /** A frame's file name never holds a separator unless the format does. */
  lemma FrameFileNameHasNoSep(n: nat, imageFormat: string)
    requires Sep !in imageFormat
    ensures Sep !in FrameFileName(n, imageFormat)
  {
    var d := Pad6(n);
    Pad6Spec(n);
    assert Sep !in d by {
      assert forall i | 0 <= i < |d| :: IsDigit(d[i]);
    }
    assert FrameFileName(n, imageFormat) == "frame_" + d + ([ExtSep] + imageFormat);
  }

  /** The base name of `dir/name` is `name` when `name` holds no separator. */
  lemma BasenameOfChild(dir: string, name: string)
    requires Sep !in name
    ensures Basename(dir + [Sep] + name) == name
  {
    var path := dir + [Sep] + name;
    var i := LastIndexOf(path, Sep);
    assert path[|dir|] == Sep;
    assert i >= |dir|;
    assert path[i + 1..] == name;
  }

  /**
   A frame file lands directly inside a non-empty output directory, and the
   base name of its path is the frame's file name.
   */
  lemma FramePathInDir(outputDir: string, n: nat, imageFormat: string)
    requires outputDir != [] && Sep !in outputDir && Sep !in imageFormat
    ensures FramePath(outputDir, n, imageFormat) == outputDir + [Sep] + FrameFileName(n, imageFormat)
    ensures Basename(FramePath(outputDir, n, imageFormat)) == FrameFileName(n, imageFormat)
  {
    var name := FrameFileName(n, imageFormat);
    assert name[0] == 'f';
    assert outputDir[|outputDir| - 1] in outputDir;
    FrameFileNameHasNoSep(n, imageFormat);
    BasenameOfChild(outputDir, name);
  }

  /** Every frame path ends in a dot and the requested format. */
  lemma FramePathEndsWithFormat(outputDir: string, n: nat, imageFormat: string)
    ensures EndsWith(FramePath(outputDir, n, imageFormat), [ExtSep] + imageFormat)
  {
    var name := FrameFileName(n, imageFormat);
    assert name == "frame_" + Pad6(n) + ([ExtSep] + imageFormat);
    assert name[0] == 'f';
    var path := FramePath(outputDir, n, imageFormat);
    assert EndsWith(name, [ExtSep] + imageFormat);
    assert path[|path| - |name|..] == name;
  }

  /** A concrete name: frame 3 of `cat` as a PNG. */
  lemma FramePathExample()
    ensures FramePath("cat", 3, "png") == "cat/frame_000003.png"
  {
    FrameFileNameExample();
    assert !IsAbsolute("frame_000003.png");
  }

  /** The file name of that frame. */
  lemma FrameFileNameExample()
    ensures FrameFileName(3, "png") == "frame_000003.png"
  {
    Pad6Example();
  }

  /** `f"{3:06d}"`. */
  lemma Pad6Example()
    ensures Pad6(3) == "000003"
  {
    assert Digits(3) == "3";
    assert Zeros(5) == "00000";
  }

  /** The frame number can be read back from the frame's file name. */
  lemma FrameFileNameInjective(m: nat, n: nat, imageFormat: string)
    requires FrameFileName(m, imageFormat) == FrameFileName(n, imageFormat)
    ensures m == n
  {
    var a := FrameFileName(m, imageFormat);
    FrameFileNameLayout(m, imageFormat);
    FrameFileNameLayout(n, imageFormat);
    assert |Pad6(m)| == |Pad6(n)|;
    assert Pad6(m) == a[6..6 + |Pad6(m)|];
    Pad6Injective(m, n);
  }

  /** Distinct frame numbers give distinct paths in the same directory and format. */
  lemma FramePathInjective(outputDir: string, m: nat, n: nat, imageFormat: string)
    requires FramePath(outputDir, m, imageFormat) == FramePath(outputDir, n, imageFormat)
    ensures m == n
  {
    var a := FrameFileName(m, imageFormat);
    var b := FrameFileName(n, imageFormat);
    assert a[0] == 'f' && b[0] == 'f';
    var prefix := if outputDir == [] || outputDir[|outputDir| - 1] == Sep then outputDir else outputDir + [Sep];
    assert FramePath(outputDir, m, imageFormat) == prefix + a;
    assert FramePath(outputDir, n, imageFormat) == prefix + b;
    assert a == (prefix + a)[|prefix|..];
    assert b == (prefix + b)[|prefix|..];
    FrameFileNameInjective(m, n, imageFormat);
  }
}

# Video frame extractor — a verified Dafny model

`video_frame_extractor.py` asks for a video path and an image format, then
`video_to_images` writes every decoded frame of the video as an image file
`frame_<index:06d>.<format>` into a directory named after the video (its base
name without the extension), creating the directory when it is missing, and
reports how many frames it saved.

This project models that script with decoding and encoding made opaque:

- `decimal.dfy` (`Decimal`): `str(n)` and the `0<width>d` format field, with
  `int(s)` as the reading direction they are proved against.
- `paths.dfy` (`Paths`): POSIX `os.path.basename`, `os.path.splitext`
  (including the rule that leading dots never start an extension) and
  two-argument `os.path.join`.
- `naming.dfy` (`Naming`): the output directory name and the frame file
  names and paths.
- `files.dfy` (`Files`): the filesystem as a set of directories plus a map
  from path to frame; `os.path.exists`, the create-if-missing directory step,
  and a sequence of `cv2.imwrite` calls applied in order.
- `capture.dfy` (`Capture`): `cv2.VideoCapture` as a handle over a given
  frame sequence, with `isOpened`, `read` and `release`.
- `extractor.dfy` (`Extractor`): `video_to_images` itself, with the read/write
  loop as its own method.
- `entry.dfy` (`Entry`): the `__main__` block, i.e. `strip()`, `lower()` and
  the `jpg`/`png` allow-list with its `jpg` fallback.
- `wrappers.dfy` (`Wrappers`): the `Option` type.

The video is a parameter `Option<seq<Frame>>`. `None` is a source that does
not open. `Some(frames)` is what the decoder would deliver, in order. The
filesystem before the call is a parameter, and the run returns the filesystem
after it.

The run, as the code performs it:

- Every frame the source delivers is saved.
- An unopenable source makes the function print a message and return,
  without calling `release()`.
- The number of saved frames is only printed; the model returns it in
  `Finished`.

One behaviour of the code is modelled as written. When the base name is empty
(a path ending in `/`, or an empty answer), `os.path.exists("")` is false and
`os.makedirs("")` raises before the video is opened. That is the
`MakeDirsRaised` outcome.

## Model

| member | source | states |
|---|---|---|
| `Decimal.Digits` | video_frame_extractor.py:40 | `str(n)` is a non-empty string of decimal digits with no leading zero unless `n` is 0 |
| `Decimal.ValueOfDigits` | video_frame_extractor.py:40 | reading `str(n)` back as a decimal number gives `n` |
| `Decimal.DigitsLength` | video_frame_extractor.py:40 | `str(n)` has at most `k` digits exactly when `n < 10^k` |
| `Decimal.ZeroPaddedSpec` | video_frame_extractor.py:40 | the `0<width>d` field reads back as `n`, is `str(n)` after nothing but zeros, and is `max(width, len(str(n)))` long |
| `Decimal.Pad6Spec` | video_frame_extractor.py:40 | `f"{n:06d}"` reads back as `n`; it is exactly 6 digits for `n < 1000000` and the plain decimal from 1000000 on |
| `Decimal.Pad6Injective` | video_frame_extractor.py:40 | different frame numbers give different `:06d` fields |
| `Paths.LastIndexOf` | video_frame_extractor.py:12 | the index found holds the character and no later index does; -1 means the character is absent |
| `Paths.Basename` | video_frame_extractor.py:12 | `basename(p)` is the longest suffix of `p` without a `/` |
| `Paths.SplitExtSpec` | video_frame_extractor.py:12 | `root + ext == p`; `ext` is non-empty exactly when some dot starts an extension (last dot of the last component, with a non-dot before it in that component), and then it starts at that dot |
| `Paths.ExtensionForcesSplit` | video_frame_extractor.py:12 | a dot that starts an extension is the last dot, lies after the last `/`, and has a non-dot between them |
| `Paths.SplitExtAt` | video_frame_extractor.py:12 | wherever an extension starts, `splitext` cuts exactly there |
| `Paths.JoinSpec` | video_frame_extractor.py:40 | `os.path.join(a, b)` is `b` when `b` is absolute; otherwise it is `a` then `b`, with a `/` right before `b` whenever `a` is non-empty, added only when `a` does not already end in `/` |
| `Paths.BasenameOfJoin` | video_frame_extractor.py:40 | `basename(join(a, b)) == basename(b)` for all `a` and `b` |
| `Naming.OutputDirSpec` | video_frame_extractor.py:12-13 | the directory name is a `/`-free prefix of the base name; what it drops is empty or one dot-led extension without further dots; when the base name has an extension, the directory name is the base name cut where it starts; the base name is kept whole exactly when it has no extension |
| `Naming.FramePathInDir` | video_frame_extractor.py:40 | for a non-empty directory name without `/` and a format without `/`, the frame path is `dir/name`, and its base name is the frame file name |
| `Naming.FramePathEndsWithFormat` | video_frame_extractor.py:40 | every frame path ends in `.` followed by the format |
| `Naming.FramePathExample` | video_frame_extractor.py:40 | frame 3 of `cat` in `png` is `cat/frame_000003.png` |
| `Naming.FrameFileNameInjective` | video_frame_extractor.py:40 | equal frame file names (same format) mean equal frame numbers |
| `Naming.FramePathInjective` | video_frame_extractor.py:40 | equal frame paths (same directory and format) mean equal frame numbers |
| `Files.EnsureDir` | video_frame_extractor.py:16-20 | the directory step fails exactly for the empty name; otherwise something exists at the name afterwards, files are untouched, an existing entry changes nothing, and a missing one is the only directory added |
| `Files.EnsureDirIdempotent` | video_frame_extractor.py:16-20 | ensuring the same directory twice is the same as once |
| `Files.ExistsAfterRun` | video_frame_extractor.py:16-41 | after the directory step and the writes, `os.path.exists(p)` holds exactly when it held before, `p` is the output directory, or `p` was written (and is non-empty); `os.path.exists("")` stays false |
| `Files.ApplyWrites` | video_frame_extractor.py:41 | applying writes adds exactly the written paths to the file map, and the last write's path holds its frame |
| `Files.ApplyDistinctWrites` | video_frame_extractor.py:40-42 | with distinct paths, every written path holds its own frame and every other file keeps its content |
| `Capture.ReadsDeliverStream` | video_frame_extractor.py:27-37 | `k` reads from a freshly opened source deliver its first `k` frames in order and leave the position after them |
| `Capture.ReadsExhaustStream` | video_frame_extractor.py:34-37 | reading a stream of `n` frames `n` times delivers all of them, after which `read()` reports no frame |
| `Capture.ReadsAfterEnd` | video_frame_extractor.py:35-37 | once a handle cannot deliver a frame (never opened, exhausted, or released), every further read yields nothing and changes nothing |
| `Capture.ReleaseEndsReads` | video_frame_extractor.py:44 | `release()` keeps the stream and the position, and no read after it delivers a frame |
| `Extractor.ExpectedWritesAt` | video_frame_extractor.py:33-42 | write `i` of a run sends frame `i` to the path for index `i` |
| `Extractor.ExpectedWritesDistinct` | video_frame_extractor.py:40-42 | no two writes of a run share a path, and the written paths are exactly those for indices `0 .. count-1` |
| `Extractor.ExpectedWritesExtension` | video_frame_extractor.py:40 | every path a run writes ends in `.` and the run's format |
| `Extractor.SaveFrames` | video_frame_extractor.py:33-42 | the loop ends with the stream exhausted, counts every frame, and makes exactly the expected writes in stream order |
| `Extractor.VideoToImages` | video_frame_extractor.py:12-44 | makedirs fails exactly on an empty name and then nothing changes; otherwise the directory exists and is the only one possibly added; an unopenable source leaves the files untouched and a handle that is not open and not released; an opened one is read to its end, released once, counted, and written frame by frame onto the old files |
| `Extractor.FinishedRunContents` | video_frame_extractor.py:33-42 | after a finished run the files are the old ones plus the frame paths for `0 .. count-1`; the path for index `i` holds frame `i`, and every other file is unchanged |
| `Entry.LeadingSpaces` | video_frame_extractor.py:49 | the whitespace `strip` removes in front is a whitespace-only prefix, followed by a non-whitespace character or the end |
| `Entry.TrailingSpaces` | video_frame_extractor.py:49 | the whitespace `strip` removes at the back is a whitespace-only suffix, preceded by a non-whitespace character or the start |
| `Entry.StripTrimmed` | video_frame_extractor.py:49 | `strip` leaves a slice of the input with only whitespace cut off either side |
| `Entry.StripEnds` | video_frame_extractor.py:49 | neither end of what `strip` leaves is whitespace |
| `Entry.StripIdempotent` | video_frame_extractor.py:52 | stripping twice equals stripping once |
| `Entry.Lower` | video_frame_extractor.py:52 | lower-casing maps each character on its own and keeps the length |
| `Entry.LowerIdempotent` | video_frame_extractor.py:52 | no upper-case ASCII letter survives, so lower-casing twice equals once |
| `Entry.SelectFormat` | video_frame_extractor.py:53-55 | the result is `jpg` or `png`; it equals the request exactly when the request is allowed, and is `jpg` otherwise |
| `Entry.SelectFormatIdempotent` | video_frame_extractor.py:53-55 | selecting from a selected format keeps it |
| `Entry.RunFromPrompt` | video_frame_extractor.py:47-58 | the entry block strips the path, strips, lower-cases and allow-lists the format (always `jpg` or `png`), and its outcome meets everything `VideoToImages` promises for those arguments (`RunOutcome`), files after the run included; every file a finished run writes ends in `.jpg` or `.png` |

## Left out

- Decoding and encoding (`cv2.VideoCapture`, `cap.read`, `cv2.imwrite`): frames are opaque values. The video is the sequence the decoder would yield, so a decode error mid-stream looks like the end of the stream, as it does in the code.
- The return value of `cv2.imwrite` is ignored by the code. Each write is an unconditional map update, including when something other than a directory sits at the output name.
- Console I/O: every `print` and both `input()` prompts. The prompt answers are parameters of `Entry.RunFromPrompt`.
- Filesystem semantics beyond directories plus a path-to-frame map: permissions, partial writes, symbolic links, resolution against the working directory, and `.`/`..` always existing.
- Windows path rules (`\` and drive letters in `ntpath`); the POSIX rules are modelled.
- `Entry.Lower`: only ASCII `A`–`Z` are lower-cased; other characters are kept. Python's full Unicode `lower()` differs on non-ASCII letters. The allow-list decision is unaffected, because no non-ASCII character lower-cases to `j`, `p`, `g` or `n`.
- `Extractor.SaveFrames`: sources are finite sequences, so the loop always ends. A source that never reports an end (a live stream URL, which `cv2.VideoCapture` also opens) keeps the code in the loop until the process is killed, so it never calls `release()` or prints the count; the model does not cover that run.
- `Extractor.VideoToImages`: every format is treated as writable. A format OpenCV has no encoder for (for example `txt` or the empty string) makes `cv2.imwrite` raise at the first frame, so nothing is written, the handle is not released and no count is printed; the model does not cover that run. Only `jpg` and `png` reach this code from the entry block.

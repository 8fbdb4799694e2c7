/**
 The script's entry block: read the video path and the image format, trim
 both, lower-case the format, fall back to `jpg` for any format outside the
 allow-list, and run the extractor. The two `input()` answers arrive here as
 parameters.
 */
module Entry {
  import opened Wrappers
  import opened Paths
  import opened Naming
  import opened Files
  import opened Extractor

  /**
   Python's `str.isspace`: the characters `str.strip()` removes. This is the
   complete list of whitespace code points Python recognises.
   */
  predicate IsSpace(c: char) {
    || '\t' <= c <= '\r'
    || '\U{1C}' <= c <= '\U{1F}'
    || c == ' '
    || c == '\U{85}'
    || c == '\U{A0}'
    || c == '\U{1680}'
    || '\U{2000}' <= c <= '\U{200A}'
    || c == '\U{2028}'
    || c == '\U{2029}'
    || c == '\U{202F}'
    || c == '\U{205F}'
    || c == '\U{3000}'
  }

  predicate AllSpace(s: string) {
    forall i | 0 <= i < |s| :: IsSpace(s[i])
  }

  /** How many whitespace characters `s` starts with. */
  function LeadingSpaces(s: string): (k: nat)
    ensures k <= |s|
    ensures forall i | 0 <= i < k :: IsSpace(s[i])
    ensures k == |s| || !IsSpace(s[k])
  {
    if s != [] && IsSpace(s[0]) then 1 + LeadingSpaces(s[1..]) else 0
  }

  /** How many whitespace characters `s` ends with. */
  function TrailingSpaces(s: string): (k: nat)
    ensures k <= |s|
    ensures forall i | |s| - k <= i < |s| :: IsSpace(s[i])
    ensures k == |s| || !IsSpace(s[|s| - k - 1])
  {
    if s != [] && IsSpace(s[|s| - 1]) then 1 + TrailingSpaces(s[..|s| - 1]) else 0
  }

  /** `r` is `s` with some whitespace removed from each end and nothing else. */
  ghost predicate TrimmedFrom(r: string, s: string) {
    exists k | 0 <= k <= |s| - |r| :: s[k..k + |r|] == r && AllSpace(s[..k]) && AllSpace(s[k + |r|..])
  }

  /** `s.strip()`: `s` with its leading and trailing whitespace removed. */
  function Strip(s: string): string {
    var front := LeadingSpaces(s);
    StripBounds(s);
    if front == |s| then [] else s[front..|s| - TrailingSpaces(s)]
  }

  /** What `strip()` leaves is a slice of `s` with only whitespace cut off either side. */
  lemma StripTrimmed(s: string)
    ensures |Strip(s)| <= |s| && TrimmedFrom(Strip(s), s)
  {
    var front := LeadingSpaces(s);
    StripBounds(s);
    if front == |s| {
      TrimmedBetween(s, front, front, Strip(s));
    } else {
      TrimmedBetween(s, front, |s| - TrailingSpaces(s), Strip(s));
    }
  }

  /** Neither end of what `strip()` leaves is whitespace. */
  lemma StripEnds(s: string)
    ensures Strip(s) == [] || (!IsSpace(Strip(s)[0]) && !IsSpace(Strip(s)[|Strip(s)| - 1]))
  {
    var front := LeadingSpaces(s);
    StripBounds(s);
    if front < |s| {
      SliceEnds(s, front, |s| - TrailingSpaces(s), Strip(s));
    }
  }

  /** Unless `s` is all whitespace, its leading and trailing whitespace do not overlap. */
  lemma StripBounds(s: string)
    ensures LeadingSpaces(s) < |s| ==> LeadingSpaces(s) < |s| - TrailingSpaces(s)
  {
    var front := LeadingSpaces(s);
    if front < |s| {
      assert !IsSpace(s[front]);
    }
  }

  /** A slice starts and ends with the characters at its two cut points. */
  lemma SliceEnds(s: string, lo: nat, hi: nat, r: string)
    requires lo < hi <= |s| && r == s[lo..hi]
    requires !IsSpace(s[lo]) && !IsSpace(s[hi - 1])
    ensures r != [] && !IsSpace(r[0]) && !IsSpace(r[|r| - 1])
  {
    assert r[0] == s[lo];
    assert r[|r| - 1] == s[hi - 1];
  }

  /** Cutting `s` at two points with only whitespace outside them trims it. */
  lemma TrimmedBetween(s: string, lo: nat, hi: nat, r: string)
    requires lo <= hi <= |s| && r == s[lo..hi]
    requires forall i | 0 <= i < lo :: IsSpace(s[i])
    requires forall i | hi <= i < |s| :: IsSpace(s[i])
    ensures |r| <= |s| && TrimmedFrom(r, s)
  {
    assert s[lo..lo + |r|] == r;
    assert AllSpace(s[..lo]);
    assert AllSpace(s[lo + |r|..]);
  }

  /** Stripping an already stripped string changes nothing. */
  lemma StripIdempotent(s: string)
    ensures Strip(Strip(s)) == Strip(s)
  {
    var r := Strip(s);
    StripEnds(s);
    if r != [] {
      assert LeadingSpaces(r) == 0;
      assert TrailingSpaces(r) == 0;
      assert r[0..|r| - 0] == r;
    }
  }

  predicate IsAsciiUpper(c: char) {
    'A' <= c <= 'Z'
  }

  function LowerChar(c: char): char {
    if IsAsciiUpper(c) then ((c as int) + 32) as char else c
  }

  /** `s.lower()` restricted to ASCII letters; every other character is kept. */
  function Lower(s: string): (r: string)
    ensures |r| == |s|
    ensures forall i | 0 <= i < |s| :: r[i] == LowerChar(s[i])
  {
    if s == [] then [] else [LowerChar(s[0])] + Lower(s[1..])
  }

  /** Lower-casing twice is lower-casing once: no upper-case ASCII letter survives. */
  lemma LowerIdempotent(s: string)
    ensures Lower(Lower(s)) == Lower(s)
    ensures forall i | 0 <= i < |s| :: !IsAsciiUpper(Lower(s)[i])
  {
  }

  const AllowedFormats: seq<string> := ["jpg", "png"]
  const DefaultFormat: string := "jpg"

  /** The allow-list fallback: `jpg` and `png` pass, anything else becomes `jpg`. */
  function SelectFormat(requested: string): (f: string)
    ensures f == "jpg" || f == "png"
    ensures f == requested <==> requested in AllowedFormats
    ensures requested !in AllowedFormats ==> f == DefaultFormat
  {
    if requested in AllowedFormats then requested else DefaultFormat
  }

  /** Selecting again keeps the selected format. */
  lemma SelectFormatIdempotent(requested: string)
    ensures SelectFormat(SelectFormat(requested)) == SelectFormat(requested)
  {
  }

  lemma DottedFormat(f: string)
    requires f == "jpg" || f == "png"
    ensures [ExtSep] + f == ".jpg" || [ExtSep] + f == ".png"
  {
  }

  /**
   Runs the entry block on the two answers typed at the prompts: the
   extractor runs on the stripped path and the selected format, with every
   outcome `VideoToImages` promises, and every file it writes is a frame file
   whose name ends in `.jpg` or `.png`.
   */
  method RunFromPrompt(pathAnswer: string, formatAnswer: string, video: Option<seq<Frame>>, fs: FileSystem)
    returns (videoPath: string, imageFormat: string, r: Outcome)
    ensures videoPath == Strip(pathAnswer)
    ensures imageFormat == SelectFormat(Lower(Strip(formatAnswer)))
    ensures imageFormat == "jpg" || imageFormat == "png"
    ensures RunOutcome(videoPath, imageFormat, video, fs, r)
    ensures r.Finished? ==> forall w | w in r.writes :: EndsWith(w.0, ".jpg") || EndsWith(w.0, ".png")
  {
    videoPath := Strip(pathAnswer);
    imageFormat := SelectFormat(Lower(Strip(formatAnswer)));
    r := VideoToImages(videoPath, imageFormat, video, fs);
    if r.Finished? {
      ExpectedWritesExtension(OutputDir(videoPath), imageFormat, video.value);
      DottedFormat(imageFormat);
    }
  }
}

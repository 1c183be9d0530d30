/**
 * The pure file-name helpers of `src/helpers/fileHelper.ts`: recognising
 * media by content type or extension, refusing unsafe paths, sanitising
 * file names and choosing the download directory for a file.
 * `path.isAbsolute` is an input of `IsValidPath`, not computed here.
 */
module FileHelper {
  import opened Wrappers
  import opened Text

  // ---------------------------------------------------------------------------
  // `isMediaFile`
  // ---------------------------------------------------------------------------

  const ImageExtensions: seq<string> := [".jpg", ".jpeg", ".png", ".gif", ".webp"]
  const VideoExtensions: seq<string> := [".mp4", ".webm", ".mov"]
  const MediaExtensions: seq<string> := ImageExtensions + VideoExtensions

  /** `exts.some(ext => s.endsWith(ext))` */
  predicate EndsWithAny(s: string, exts: seq<string>) {
    exists i :: 0 <= i < |exts| && EndsWith(s, exts[i])
  }

  /** A content type counts when it is present and not empty (JavaScript truthiness). */
  predicate HasContentType(contentType: Option<string>) {
    contentType.Some? && contentType.value != ""
  }

  /** `isMediaFile(url, contentType)` */
  predicate IsMediaFile(url: string, contentType: Option<string>) {
    if HasContentType(contentType) then
      StartsWith(contentType.value, "image/") || StartsWith(contentType.value, "video/")
    else EndsWithAny(Lower(url), MediaExtensions)
  }

  /** Lower-casing twice is lower-casing once. */
  lemma LowerIdempotent(s: string)
    ensures Lower(Lower(s)) == Lower(s)
  {
  }

  lemma LowerAppend(a: string, b: string)
    ensures Lower(a + b) == Lower(a) + Lower(b)
  {
  }

  /** With a content type, only its `image/` or `video/` prefix decides; the URL is never looked at. */
  lemma MediaByContentType(url: string, otherUrl: string, contentType: string)
    requires contentType != ""
    ensures IsMediaFile(url, Some(contentType)) <==>
      StartsWith(contentType, "image/") || StartsWith(contentType, "video/")
    ensures IsMediaFile(url, Some(contentType)) == IsMediaFile(otherUrl, Some(contentType))
  {
  }

  /**
   * Without a content type (absent or empty), a URL is media exactly when it
   * ends with one of the eight extensions in any letter case.
   */
  lemma MediaByExtension(url: string, stem: string, ext: string)
    requires Lower(ext) in MediaExtensions
    ensures IsMediaFile(url, None) == IsMediaFile(url, Some(""))
    ensures IsMediaFile(url, None) == IsMediaFile(Lower(url), None)
    ensures IsMediaFile(stem + ext, None)
  {
    LowerIdempotent(url);
    LowerAppend(stem, ext);
    var i :| 0 <= i < |MediaExtensions| && MediaExtensions[i] == Lower(ext);
    assert (Lower(stem) + Lower(ext))[|Lower(stem) + Lower(ext)| - |Lower(ext)|..] == Lower(ext);
  }

  // ---------------------------------------------------------------------------
  // `isValidPath`
  // ---------------------------------------------------------------------------

  /** Substrings that mark a traversal or a system location. */
  const Dangerous: seq<string> := ["../", "..\\", "~/", "/etc/", "/root/", "/home/"]

  /** `isValidPath(filePath)`, with `isAbsolute` standing for `path.isAbsolute(filePath)`. */
  predicate IsValidPath(filePath: string, isAbsolute: bool) {
    if filePath == "" then false
    else if exists i :: 0 <= i < |Dangerous| && Contains(filePath, Dangerous[i]) then false
    else !isAbsolute
  }

  /**
   * A path is valid exactly when it is not empty, not absolute, and none of
   * the dangerous patterns starts at any position.
   */
  lemma ValidPathIff(p: string, isAbsolute: bool)
    ensures IsValidPath(p, isAbsolute) <==>
      p != "" && !isAbsolute && forall i, k :: 0 <= i < |Dangerous| && 0 <= k <= |p| ==> !OccursAt(p, Dangerous[i], k)
  {
    forall i | 0 <= i < |Dangerous| {
      ContainsIff(p, Dangerous[i]);
    }
  }

  /** The path separators of POSIX and Windows. */
  predicate IsSeparator(c: char) {
    c == '/' || c == '\\'
  }

  /** A whole path segment `..` starts at `i`: a step to the parent directory. */
  predicate ParentSegmentAt(p: string, i: int) {
    OccursAt(p, "..", i)
    && (i == 0 || IsSeparator(p[i - 1]))
    && (i + 2 == |p| || IsSeparator(p[i + 2]))
  }

  /** The bare parent directory `..` passes, although it leaves the working directory. */
  lemma ParentPathAccepted()
    ensures IsValidPath("..", false)
    ensures ParentSegmentAt("..", 0)
  {
    forall i | 0 <= i < |Dangerous|
      ensures !Contains("..", Dangerous[i])
    {
      ContainsIff("..", Dangerous[i]);
    }
  }

  /** A path that ends in a `..` segment. */
  predicate EndsInParent(p: string) {
    p == ".." || EndsWith(p, "/..") || EndsWith(p, "\\..")
  }

  /** `isValidPath` that also refuses a path ending in a `..` segment. */
  predicate IsValidPathChecked(filePath: string, isAbsolute: bool) {
    IsValidPath(filePath, isAbsolute) && !EndsInParent(filePath)
  }

  /** A `..` segment followed by a separator is one of the first two dangerous patterns. */
  lemma ParentBeforeSeparator(p: string, i: int)
    requires ParentSegmentAt(p, i) && i + 2 < |p|
    ensures OccursAt(p, Dangerous[0], i) || OccursAt(p, Dangerous[1], i)
  {
    assert p[i..i + 3] == p[i..i + 2] + [p[i + 2]];
  }

  /** A `..` segment that ends the path makes it end in a parent step. */
  lemma ParentAtEnd(p: string, i: int)
    requires ParentSegmentAt(p, i) && i + 2 == |p|
    ensures EndsInParent(p)
  {
    if i > 0 {
      assert p[|p| - 3..] == [p[i - 1]] + p[i..i + 2];
    }
  }

  /** A path the checked test accepts has no `..` segment anywhere. */
  lemma CheckedPathHasNoParentSegment(p: string, isAbsolute: bool)
    requires IsValidPathChecked(p, isAbsolute)
    ensures forall i :: !ParentSegmentAt(p, i)
  {
    ValidPathIff(p, isAbsolute);
    forall i | ParentSegmentAt(p, i)
      ensures false
    {
      if i + 2 < |p| {
        ParentBeforeSeparator(p, i);
      } else {
        ParentAtEnd(p, i);
      }
    }
  }

  /** The check only adds refusals: every path it accepts, the original accepts. */
  lemma CheckedPathIsValid(p: string, isAbsolute: bool)
    ensures IsValidPathChecked(p, isAbsolute) ==> IsValidPath(p, isAbsolute)
    ensures IsValidPath(p, isAbsolute) && !EndsInParent(p) ==> IsValidPathChecked(p, isAbsolute)
  {
  }

  // ---------------------------------------------------------------------------
  // `sanitizeFilename`
  // ---------------------------------------------------------------------------

  /** `[<>:"/\\|?*\x00-\x1f]` */
  predicate Forbidden(c: char) {
    c == '<' || c == '>' || c == ':' || c == '"' || c == '/' || c == '\\' || c == '|' || c == '?' || c == '*'
    || c as int < 0x20
  }

  /** `.replace(/[<>:"/\\|?*\x00-\x1f]/g, '_')` */
  function ReplaceForbidden(s: string): (r: string)
    ensures |r| == |s|
    ensures forall i :: 0 <= i < |s| ==> r[i] == if Forbidden(s[i]) then '_' else s[i]
  {
    seq(|s|, i requires 0 <= i < |s| => if Forbidden(s[i]) then '_' else s[i])
  }

  /** Length of the run of `.` at the front of `s`. */
  function LeadingDots(s: string): (k: nat)
    ensures k <= |s|
    ensures forall i :: 0 <= i < k ==> s[i] == '.'
    ensures k < |s| ==> s[k] != '.'
    decreases |s|
  {
    if s != [] && s[0] == '.' then 1 + LeadingDots(s[1..]) else 0
  }

  /** `.replace(/^\.+/, '_')`: a run of leading dots becomes one underscore. */
  function CollapseLeadingDots(s: string): string {
    var k := LeadingDots(s);
    if k > 0 then "_" + s[k..] else s
  }

  /** Longest file name kept. */
  const MaxFilenameLength: nat := 255

  /** `sanitizeFilename(filename)` */
  function SanitizeFilename(filename: string): string {
    if filename == "" then "unknown"
    else
      var t := CollapseLeadingDots(ReplaceForbidden(filename));
      if |t| <= MaxFilenameLength then t else t[..MaxFilenameLength]
  }

  /** A name `sanitizeFilename` has nothing to change in. */
  predicate CleanFilename(s: string) {
    1 <= |s| <= MaxFilenameLength && s[0] != '.' && forall i :: 0 <= i < |s| ==> !Forbidden(s[i])
  }

  /** Every sanitised name is clean: 1 to 255 characters, none forbidden, no leading dot. */
  lemma SanitizedIsClean(filename: string)
    ensures filename == "" ==> SanitizeFilename(filename) == "unknown"
    ensures CleanFilename(SanitizeFilename(filename))
  {
    if filename != "" {
      var u := ReplaceForbidden(filename);
      var k := LeadingDots(u);
      var t := CollapseLeadingDots(u);
      assert |t| >= 1;
      assert t[0] != '.';
      assert forall i :: 0 <= i < |t| ==> !Forbidden(t[i]) by {
        if k > 0 {
          assert forall i :: 1 <= i < |t| ==> t[i] == u[k + i - 1];
        }
      }
    } else {
      assert CleanFilename("unknown");
    }
  }

  /**
   * A name that does not start with `.` keeps every allowed character in
   * place, forbidden ones become `_`, and the rest past 255 is dropped.
   */
  lemma SanitizeKeepsAllowed(filename: string)
    requires filename != "" && filename[0] != '.'
    ensures |SanitizeFilename(filename)| == if |filename| <= MaxFilenameLength then |filename| else MaxFilenameLength
    ensures forall i :: 0 <= i < |SanitizeFilename(filename)| ==>
      SanitizeFilename(filename)[i] == if Forbidden(filename[i]) then '_' else filename[i]
  {
    assert LeadingDots(ReplaceForbidden(filename)) == 0;
  }

  /** A clean name is left as it is. */
  lemma SanitizeKeepsClean(s: string)
    requires CleanFilename(s)
    ensures SanitizeFilename(s) == s
  {
    assert LeadingDots(s) == 0;
    assert ReplaceForbidden(s) == s;
  }

  /** Sanitising twice is sanitising once. */
  lemma SanitizeIdempotent(filename: string)
    ensures SanitizeFilename(SanitizeFilename(filename)) == SanitizeFilename(filename)
  {
    SanitizedIsClean(filename);
    SanitizeKeepsClean(SanitizeFilename(filename));
  }

  // ---------------------------------------------------------------------------
  // `getFileTypeDir`
  // ---------------------------------------------------------------------------

  const ImageNames: seq<string> := ["jpg", "jpeg", "png", "gif", "webp", "svg", "bmp"]
  const VideoNames: seq<string> := ["mp4", "webm", "avi", "mov", "mkv", "flv"]
  const AudioNames: seq<string> := ["mp3", "wav", "ogg", "flac", "aac", "m4a"]

  /** `filename.split('.').pop()`: the text after the last `.`, or the whole name. */
  function FinalSegment(filename: string): (r: string)
    ensures |r| <= |filename| && r == filename[|filename| - |r|..]
    ensures forall i :: 0 <= i < |r| ==> r[i] != '.'
    ensures |r| < |filename| ==> filename[|filename| - |r| - 1] == '.'
  {
    filename[LastIndexOf(filename, '.') + 1..]
  }

  /** The directory chosen from a lower-cased extension alone. */
  function DirOfExtension(ext: string): string {
    if ext in ImageNames then "images"
    else if ext in VideoNames then "videos"
    else if ext in AudioNames then "audio"
    else "documents"
  }

  /** `getFileTypeDir(contentType, filename)` */
  function GetFileTypeDir(contentType: string, filename: string): string {
    if contentType != "" && StartsWith(contentType, "image/") then "images"
    else if contentType != "" && StartsWith(contentType, "video/") then "videos"
    else if contentType != "" && StartsWith(contentType, "audio/") then "audio"
    else DirOfExtension(Lower(FinalSegment(filename)))
  }

  predicate IsTypeDir(d: string) {
    d == "images" || d == "videos" || d == "audio" || d == "documents"
  }

  /**
   * The directory is always one of the four; a media content-type prefix
   * decides it whatever the file name, and otherwise the extension does.
   */
  lemma FileTypeDirChoice(contentType: string, filename: string, otherName: string)
    ensures IsTypeDir(GetFileTypeDir(contentType, filename))
    ensures StartsWith(contentType, "image/") ==> GetFileTypeDir(contentType, filename) == "images"
    ensures StartsWith(contentType, "video/") ==> GetFileTypeDir(contentType, filename) == "videos"
    ensures StartsWith(contentType, "audio/") && !StartsWith(contentType, "image/") && !StartsWith(contentType, "video/") ==>
      GetFileTypeDir(contentType, filename) == "audio"
    ensures !StartsWith(contentType, "image/") && !StartsWith(contentType, "video/") && !StartsWith(contentType, "audio/") ==>
      GetFileTypeDir(contentType, filename) == GetFileTypeDir("", filename)
    ensures StartsWith(contentType, "image/") || StartsWith(contentType, "video/") || StartsWith(contentType, "audio/") ==>
      GetFileTypeDir(contentType, filename) == GetFileTypeDir(contentType, otherName)
  {
  }

  /**
   * By name, only the lower-cased text after the last dot matters: a name
   * `<stem>.<ext>` files like the bare `<ext>`, and a name without a dot is
   * its own extension.
   */
  lemma FileTypeDirByExtension(stem: string, ext: string)
    requires forall i :: 0 <= i < |ext| ==> ext[i] != '.'
    ensures GetFileTypeDir("", stem + "." + ext) == DirOfExtension(Lower(ext))
    ensures GetFileTypeDir("", ext) == DirOfExtension(Lower(ext))
  {
    assert stem + "." + ext == stem + ['.'] + ext;
    LastIndexPast(stem, '.', ext);
    assert (stem + "." + ext)[|stem| + 1..] == ext;
  }

  /** Lower-casing moves no dot. */
  lemma LastDotOfLower(s: string)
    ensures LastIndexOf(Lower(s), '.') == LastIndexOf(s, '.')
  {
    var l := Lower(s);
    var r := LastIndexOf(s, '.');
    assert r >= 0 ==> l[r] == '.';
    forall i | r < i < |s|
      ensures l[i] != '.'
    {
      assert s[i] != '.';
    }
    LastIndexUnique(l, '.', r);
  }

  lemma LowerSuffix(s: string, k: nat)
    requires k <= |s|
    ensures Lower(s)[k..] == Lower(s[k..])
  {
  }

  /** So the final segment of the lower-cased name is the lower-cased segment. */
  lemma FinalSegmentOfLower(s: string)
    ensures FinalSegment(Lower(s)) == Lower(FinalSegment(s))
  {
    LastDotOfLower(s);
    LowerSuffix(s, LastIndexOf(s, '.') + 1);
  }

  /** A name ending in `.<e>` after lower-casing, `e` without dots, has `e` as lower-cased extension. */
  lemma LowerExtensionOf(url: string, e: string)
    requires EndsWith(Lower(url), "." + e)
    requires forall i :: 0 <= i < |e| ==> e[i] != '.'
    ensures Lower(FinalSegment(url)) == e
  {
    var l := Lower(url);
    var front := l[..|url| - |e| - 1];
    assert l == front + ['.'] + e;
    LastIndexPast(front, '.', e);
    FinalSegmentOfLower(url);
  }

  /** Each of the eight media extensions is a dot and a name the directory choice lists as image or video. */
  lemma MediaExtensionNamed(i: nat)
    requires i < |MediaExtensions|
    ensures var x := MediaExtensions[i];
      && x == "." + x[1..]
      && (forall k :: 1 <= k < |x| ==> x[k] != '.')
      && (x[1..] in ImageNames || x[1..] in VideoNames)
  {
    var x := MediaExtensions[i];
    if i < 5 {
      assert x == ImageExtensions[i];
    } else {
      assert x == VideoExtensions[i - 5];
    }
    assert x[1..] in ImageNames || x[1..] in VideoNames by {
      if i == 0 { assert x[1..] == ImageNames[0]; }
      else if i == 1 { assert x[1..] == ImageNames[1]; }
      else if i == 2 { assert x[1..] == ImageNames[2]; }
      else if i == 3 { assert x[1..] == ImageNames[3]; }
      else if i == 4 { assert x[1..] == ImageNames[4]; }
      else if i == 5 { assert x[1..] == VideoNames[0]; }
      else if i == 6 { assert x[1..] == VideoNames[1]; }
      else { assert x[1..] == VideoNames[3]; }
    }
  }

  /** Every media file is filed under `images` or `videos`, never `audio` or `documents`. */
  lemma MediaFilesGoToMediaDirs(url: string, contentType: Option<string>)
    requires IsMediaFile(url, contentType)
    ensures GetFileTypeDir(contentType.GetOr(""), url) == "images" || GetFileTypeDir(contentType.GetOr(""), url) == "videos"
  {
    if !HasContentType(contentType) {
      assert contentType.GetOr("") == "";
      var i :| 0 <= i < |MediaExtensions| && EndsWith(Lower(url), MediaExtensions[i]);
      MediaExtensionNamed(i);
      var e := MediaExtensions[i][1..];
      LowerExtensionOf(url, e);
    }
  }
}

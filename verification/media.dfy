/** Path and filename rules of the thumbnail worker: extension extraction,
    the video/image dispatch, separator normalisation and thumbnail naming. */
module Media {
  import opened Strings

  /** The extensions the worker treats as video, compared lower-cased. */
  const VideoExtensions: seq<string> := [".mp4", ".mov", ".avi", ".mkv", ".webm"]

  /** Directory that holds uploads and generated thumbnails. */
  const UploadsDir: string := "uploads"

  /** The last path component, ignoring trailing separators. */
  function BaseName(p: string): (r: string)
    ensures '/' !in r
  {
    LastSegment(TrimEnd(p, '/'), '/')
  }

  /** `path.extname` (POSIX): from the last `.` of the last component to its
      end, or empty when that component has no `.`, starts with its only
      leading dot run's last `.`, or is `..`. */
  function ExtName(p: string): (r: string)
    ensures r == "" || (r[0] == '.' && '.' !in r[1..] && '/' !in r)
    ensures |r| <= |BaseName(p)| && BaseName(p)[|BaseName(p)| - |r|..] == r
    ensures r == "" <==> (forall j :: 1 <= j < |BaseName(p)| ==> BaseName(p)[j] != '.') || BaseName(p) == ".."
  {
    var b := BaseName(p);
    Extension(b)
  }

  /** The extension of one path component. */
  function Extension(b: string): (r: string)
    requires '/' !in b
    ensures r == "" || (r[0] == '.' && '.' !in r[1..] && '/' !in r)
    ensures |r| <= |b| && b[|b| - |r|..] == r
    ensures r == "" <==> (forall j :: 1 <= j < |b| ==> b[j] != '.') || b == ".."
  {
    var i := LastIndexOf(b, '.');
    if i <= 0 || b == ".." then "" else SuffixFacts(b, i); b[i..]
  }

  /** The suffix of a separator-free name from its last `.` on. */
  lemma SuffixFacts(b: string, i: int)
    requires '/' !in b && 0 <= i < |b| && b[i] == '.'
    requires forall j :: i < j < |b| ==> b[j] != '.'
    ensures var r := b[i..];
      r[0] == '.' && '.' !in r[1..] && '/' !in r && b[|b| - |r|..] == r
  {
    var r := b[i..];
    assert forall k :: 0 <= k < |r| ==> r[k] == b[i + k];
    assert forall k :: 0 <= k < |r| - 1 ==> r[1..][k] == b[i + 1 + k];
  }

  /** The extension depends only on the base name. */
  lemma ExtNameOfBaseName(p: string, q: string)
    requires BaseName(p) == BaseName(q)
    ensures ExtName(p) == ExtName(q)
  {
  }

  /** A non-empty name without separators is its own base name. */
  lemma PlainBaseName(s: string)
    requires '/' !in s && s != ""
    ensures BaseName(s) == s
  {
    assert s[|s| - 1] in s;
    assert TrimEnd(s, '/') == s;
    LastSegmentOfPlainName(s);
  }

  /** The video test: the lower-cased extension is one of the five. */
  predicate IsVideo(ext: string) {
    ToLower(ext) in VideoExtensions
  }

  datatype MediaKind = Image | Video

  /** The branch the worker takes for a source file: video when its base
      name is longer than one of the five extensions and ends with it in
      any letter case, image for everything else. A name that is only the
      extension, such as `.mp4`, has no extension and is an image. */
  function KindOf(filePath: string): (k: MediaKind)
    ensures ExtName(filePath) == "" ==> k == Image
  {
    NoExtensionIsNotVideo();
    if IsVideo(ExtName(filePath)) then Video else Image
  }

  /** The name is longer than some video extension and ends with it in any
      letter case. */
  predicate EndsWithVideoExtension(b: string) {
    exists e :: e in VideoExtensions && |b| > |e| && ToLower(b[|b| - |e|..]) == e
  }

  /** The dispatch stated without the extension: a file is a video exactly
      when its base name properly ends with a video extension in any letter
      case. */
  lemma KindOfBySuffix(filePath: string)
    ensures KindOf(filePath) == Video <==> EndsWithVideoExtension(BaseName(filePath))
  {
    VideoSuffix(BaseName(filePath));
  }

  /** Files with the same extension take the same branch. */
  lemma SameExtensionSameKind(p: string, q: string)
    requires ExtName(p) == ExtName(q)
    ensures KindOf(p) == KindOf(q)
  {
  }

  /** The extension of a component is a video extension exactly when the
      component properly ends with a video extension in any letter case. */
  lemma VideoSuffix(b: string)
    requires '/' !in b
    ensures IsVideo(Extension(b)) <==> EndsWithVideoExtension(b)
  {
    if IsVideo(Extension(b)) {
      VideoExtensionIsProper(b);
      var e := ToLower(Extension(b));
      assert e in VideoExtensions && |b| > |e| && ToLower(b[|b| - |e|..]) == e;
    }
    if e :| e in VideoExtensions && |b| > |e| && ToLower(b[|b| - |e|..]) == e {
      SuffixIsExtension(b, e);
    }
  }

  /** A video extension is a proper suffix of its component. */
  lemma VideoExtensionIsProper(b: string)
    requires '/' !in b && IsVideo(Extension(b))
    ensures |Extension(b)| < |b|
  {
    var r := Extension(b);
    NoExtensionIsNotVideo();
    assert r != "";
  }

  /** A component that properly ends with a video extension in any letter
      case has that ending as its extension. */
  lemma SuffixIsExtension(b: string, e: string)
    requires '/' !in b && e in VideoExtensions && |b| > |e| && ToLower(b[|b| - |e|..]) == e
    ensures Extension(b) == b[|b| - |e|..]
  {
    VideoExtensionShape();
    var i := |b| - |e|;
    var t := b[i..];
    assert t[0] == '.' by {
      assert ToLowerChar(t[0]) == e[0];
    }
    assert '.' !in t[1..] by {
      forall j | 1 <= j < |t|
        ensures t[j] != '.'
      {
        assert ToLowerChar(t[j]) == e[j];
      }
    }
    assert b[i + 1..] == t[1..];
    LastIndexOfAt(b, '.', i);
  }

  /** Every video extension is a `.` followed by three or four dot-free
      characters. */
  lemma VideoExtensionShape()
    ensures forall e :: e in VideoExtensions ==>
      4 <= |e| <= 5 && e[0] == '.' && forall j :: 1 <= j < |e| ==> e[j] != '.'
  {
  }

  lemma NoExtensionIsNotVideo()
    ensures !IsVideo("")
  {
    assert ToLower("") == "";
  }

  /** Lower-casing is idempotent. */
  lemma ToLowerIdempotent(s: string)
    ensures ToLower(ToLower(s)) == ToLower(s)
  {
    assert forall i :: 0 <= i < |s| ==> ToLowerChar(ToLowerChar(s[i])) == ToLowerChar(s[i]);
  }

  /** The dispatch ignores letter case, and a video extension is a dot
      followed by three or four characters. */
  lemma VideoTestIgnoresCase(ext: string)
    ensures IsVideo(ext) <==> IsVideo(ToLower(ext))
    ensures IsVideo(ext) ==> (|ext| == 4 || |ext| == 5) && ext[0] == '.'
  {
    ToLowerIdempotent(ext);
  }

  /** `s.replace(/\\/g, "/")`: no backslash remains, the length is kept and
      every other character is left where it was. */
  function ToForwardSlashes(s: string): (r: string)
    ensures '\\' !in r
    ensures |r| == |s|
    ensures forall i :: 0 <= i < |s| && s[i] != '\\' ==> r[i] == s[i]
    ensures forall i :: 0 <= i < |s| && s[i] == '\\' ==> r[i] == '/'
  {
    ReplaceAll(s, '\\', '/')
  }

  /** Normalising twice is normalising once, and a path without backslashes
      is left alone. */
  lemma ToForwardSlashesIdempotent(s: string)
    ensures ToForwardSlashes(ToForwardSlashes(s)) == ToForwardSlashes(s)
    ensures '\\' !in s ==> ToForwardSlashes(s) == s
  {
  }

  /** The bare thumbnail filename stored on the job: `thumb-<ms>.jpg`. */
  function ThumbnailName(timestamp: nat): (r: string)
    ensures StartsWith(r, "thumb-")
    ensures '/' !in r && '\\' !in r
  {
    var digits := NatToString(timestamp);
    ThumbnailNameFacts(digits);
    "thumb-" + digits + ".jpg"
  }

  lemma ThumbnailNameFacts(digits: string)
    requires AllDigits(digits)
    ensures var r := "thumb-" + digits + ".jpg";
      StartsWith(r, "thumb-") && '/' !in r && '\\' !in r
  {
    NoSeparatorsInName(digits);
    assert ("thumb-" + digits + ".jpg")[..6] == "thumb-";
  }

  /** Every thumbnail name is a JPEG name: its extension is `.jpg`, so the
      worker would treat it as an image. */
  lemma ThumbnailNameIsJpeg(timestamp: nat)
    ensures ExtName(ThumbnailName(timestamp)) == ".jpg"
    ensures KindOf(ThumbnailName(timestamp)) == Image
  {
    var digits := NatToString(timestamp);
    assert ThumbnailName(timestamp) == "thumb-" + digits + ".jpg";
    ThumbnailExtension(digits);
    JpegIsNotVideo();
  }

  lemma JpegIsNotVideo()
    ensures !IsVideo(".jpg")
  {
    var l := ToLower(".jpg");
    assert l[1] == 'j';
    assert forall k :: 0 <= k < |VideoExtensions| ==> VideoExtensions[k][1] != 'j';
  }

  lemma NoSeparatorsInName(digits: string)
    requires AllDigits(digits)
    ensures '/' !in "thumb-" + digits + ".jpg"
    ensures '\\' !in "thumb-" + digits + ".jpg"
  {
    assert forall i :: 0 <= i < |digits| ==> IsDigit(digits[i]);
  }

  lemma ThumbnailExtension(digits: string)
    requires AllDigits(digits)
    ensures ExtName("thumb-" + digits + ".jpg") == ".jpg"
  {
    var r := "thumb-" + digits + ".jpg";
    NoSeparatorsInName(digits);
    assert TrimEnd(r, '/') == r;
    LastSegmentOfPlainName(r);
    assert r[|r| - 3..] == "jpg";
    LastIndexOfAt(r, '.', |r| - 4);
  }

  /** A name without separators is its own last segment. */
  lemma LastSegmentOfPlainName(s: string)
    requires '/' !in s
    ensures LastSegment(s, '/') == s
  {
  }

  /** Distinct timestamps give distinct thumbnail names. */
  lemma ThumbnailNameInjective(t1: nat, t2: nat)
    requires ThumbnailName(t1) == ThumbnailName(t2)
    ensures t1 == t2
  {
    var d1 := NatToString(t1);
    var d2 := NatToString(t2);
    assert "thumb-" + d1 + ".jpg" == "thumb-" + d2 + ".jpg";
    assert |d1| == |d2|;
    assert d1 == ("thumb-" + d1 + ".jpg")[6..6 + |d1|];
    assert d2 == ("thumb-" + d2 + ".jpg")[6..6 + |d2|];
    NatToStringInjective(t1, t2);
  }

  /** `path.join("uploads", name)` with separators normalised: where the
      thumbnail is written. */
  function ThumbnailPath(timestamp: nat): string {
    ToForwardSlashes(UploadsDir + "/" + ThumbnailName(timestamp))
  }

  /** The write path is the uploads directory joined with the bare name, and
      the bare name stored on the job is the path's last component. */
  lemma ThumbnailPathHoldsName(timestamp: nat)
    ensures ThumbnailPath(timestamp) == UploadsDir + "/" + ThumbnailName(timestamp)
    ensures BaseName(ThumbnailPath(timestamp)) == ThumbnailName(timestamp)
  {
    var name := ThumbnailName(timestamp);
    NoBackslashInThumbnailPath(name);
    ToForwardSlashesIdempotent(UploadsDir + "/" + name);
    BaseNameAfterDirectory(UploadsDir, name);
  }

  lemma NoBackslashInThumbnailPath(name: string)
    requires '\\' !in name
    ensures '\\' !in UploadsDir + "/" + name
  {
  }

  /** The base name of `dir/name` is `name` for a non-empty name without
      separators. */
  lemma BaseNameAfterDirectory(dir: string, name: string)
    requires '/' !in name && name != ""
    ensures BaseName(dir + "/" + name) == name
  {
    var path := dir + "/" + name;
    assert path[|path| - 1] == name[|name| - 1];
    assert name[|name| - 1] in name;
    assert TrimEnd(path, '/') == path;
    LastSegmentAfterSeparator(dir, '/', name);
  }
}

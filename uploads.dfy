/**
 * Upload filename handling in app.py: which extensions are accepted, whether a
 * name is an image or a video, and the names under which an upload and its
 * processed result are stored.
 */
module Uploads {
  import opened Outcomes

  const ImageExtensions: set<string> := {"png", "jpg", "jpeg", "gif"}
  const VideoExtensions: set<string> := {"mp4", "avi", "mov"}
  const AllowedExtensions: set<string> := ImageExtensions + VideoExtensions

  /** Prefix of the processed file's name. */
  const ProcessedPrefix: string := "processed_"

  /** Position of the last `.` in `s`, if there is one. */
  function LastDot(s: string): (r: Option<nat>)
    ensures r.None? <==> '.' !in s
    ensures r.Some? ==> r.value < |s| && s[r.value] == '.' && '.' !in s[r.value + 1..]
  {
    if s == [] then None
    else if s[|s| - 1] == '.' then Some(|s| - 1)
    else
      var r := LastDot(s[..|s| - 1]);
      assert r.Some? ==> s[r.value + 1..] == s[..|s| - 1][r.value + 1..] + [s[|s| - 1]];
      r
  }

  /** `filename.rsplit('.', 1)[1]`: the text after the last `.`; none without a `.`. */
  function Extension(filename: string): Option<string>
  {
    match LastDot(filename)
    case None => None
    case Some(i) => Some(filename[i + 1..])
  }

  function LowerChar(c: char): char {
    if 'A' <= c <= 'Z' then (c as int + 32) as char else c
  }

  /** `s.lower()` on ASCII letters. */
  function Lower(s: string): (r: string)
    ensures |r| == |s| && forall i :: 0 <= i < |s| ==> r[i] == LowerChar(s[i])
  {
    seq(|s|, i requires 0 <= i < |s| => LowerChar(s[i]))
  }

  /** The extension that decides: after the last `.`, lower-cased. */
  function Kind(filename: string): Option<string>
  {
    match Extension(filename)
    case None => None
    case Some(e) => Some(Lower(e))
  }

  /** `allowed_file`. */
  predicate AllowedFile(filename: string) {
    '.' in filename && Kind(filename).value in AllowedExtensions
  }

  /** `is_image_file`. */
  predicate IsImageFile(filename: string) {
    '.' in filename && Kind(filename).value in ImageExtensions
  }

  /** `is_video_file`. */
  predicate IsVideoFile(filename: string) {
    '.' in filename && Kind(filename).value in VideoExtensions
  }

  /**
   * The name an upload is stored under: the UUID's hex digits, a `.`, and the
   * lower-cased extension of the (sanitised) original name. Without a `.` the
   * source's `rsplit('.', 1)[1]` raises, which is `None` here.
   */
  function StoredName(hex: string, original: string): Option<string>
  {
    match Kind(original)
    case None => None
    case Some(e) => Some(hex + "." + e)
  }

  /** The name of the processed file, derived from the stored name. */
  function ProcessedName(stored: string): string
  {
    ProcessedPrefix + stored
  }

  // ---------------------------------------------------------------------------
  // Properties

  /** A name with no `.` is neither allowed, nor an image, nor a video. */
  lemma NoDotRejected(filename: string)
    requires '.' !in filename
    ensures !AllowedFile(filename) && !IsImageFile(filename) && !IsVideoFile(filename)
  {
  }

  /** The extension is exactly what follows the last `.`, whatever precedes it. */
  lemma ExtensionAfterLastDot(stem: string, ext: string)
    requires '.' !in ext
    ensures Extension(stem + "." + ext) == Some(ext)
  {
    var s := stem + "." + ext;
    assert s[|stem|] == '.';
    var i := LastDot(s).value;
    assert s[i + 1..] == ext;
  }

  /** A name ending in `.` has an empty extension and is rejected. */
  lemma TrailingDotRejected(stem: string)
    ensures Extension(stem + ".") == Some("")
    ensures !AllowedFile(stem + ".") && !IsImageFile(stem + ".") && !IsVideoFile(stem + ".")
  {
  }

  /** `a.b.JPG` is an image: only the last extension counts, and case does not. */
  lemma DoubleExtensionUpperCase()
    ensures IsImageFile("a.b.JPG") && AllowedFile("a.b.JPG") && !IsVideoFile("a.b.JPG")
  {
    ExtensionAfterLastDot("a.b", "JPG");
    assert "a.b" + "." + "JPG" == "a.b.JPG";
    assert Lower("JPG") == "jpg";
  }

  /** `allowed_file` holds exactly when `is_image_file` or `is_video_file` does. */
  lemma AllowedIffImageOrVideo(filename: string)
    ensures AllowedFile(filename) <==> IsImageFile(filename) || IsVideoFile(filename)
  {
  }

  /** No name is both an image and a video. */
  lemma ImageAndVideoExclusive(filename: string)
    ensures !(IsImageFile(filename) && IsVideoFile(filename))
  {
  }

  /** Appending `.` and an already lower-cased dot-free extension fixes the kind. */
  lemma KindOfJoin(stem: string, e: string)
    requires '.' !in e && Lower(e) == e
    ensures Kind(stem + "." + e) == Some(e)
    ensures IsImageFile(stem + "." + e) <==> e in ImageExtensions
    ensures IsVideoFile(stem + "." + e) <==> e in VideoExtensions
  {
    ExtensionAfterLastDot(stem, e);
    assert (stem + "." + e)[|stem|] == '.';
  }

  /** The lower-cased extension of a name that has one: dot-free and already lower-case. */
  lemma KindIsLowerDotFree(filename: string)
    requires '.' in filename
    ensures Kind(filename).Some?
    ensures '.' !in Kind(filename).value && Lower(Kind(filename).value) == Kind(filename).value
  {
  }

  /**
   * For an allowed name, the stored name is the hex digits, a `.` and the
   * lower-cased extension, and both it and the processed name are classified as
   * the original is. This holds for any prefix, so in particular for the 32
   * hexadecimal digits of `uuid.uuid4().hex`. The premise is about the
   * sanitised name, while app.py:57 checks the raw one: when sanitising drops
   * the last `.`, app.py:66 raises instead (`StoredName` is `None`).
   */
  lemma StoredNamesKeepKind(hex: string, original: string)
    requires AllowedFile(original)
    ensures StoredName(hex, original).Some?
    ensures StoredName(hex, original).value == hex + "." + Lower(Extension(original).value)
    ensures ProcessedName(StoredName(hex, original).value) == ProcessedPrefix + StoredName(hex, original).value
    ensures Kind(StoredName(hex, original).value) == Kind(original)
    ensures Kind(ProcessedName(StoredName(hex, original).value)) == Kind(original)
    ensures IsImageFile(StoredName(hex, original).value) == IsImageFile(original)
    ensures IsVideoFile(StoredName(hex, original).value) == IsVideoFile(original)
    ensures IsImageFile(ProcessedName(StoredName(hex, original).value)) == IsImageFile(original)
    ensures IsVideoFile(ProcessedName(StoredName(hex, original).value)) == IsVideoFile(original)
  {
    KindIsLowerDotFree(original);
    var e := Kind(original).value;
    var stored := hex + "." + e;
    assert StoredName(hex, original) == Some(stored);
    KindOfJoin(hex, e);
    assert ProcessedName(stored) == (ProcessedPrefix + hex) + "." + e;
    KindOfJoin(ProcessedPrefix + hex, e);
  }
}

/** File-name helpers: the extension after the last dot, the name before it, and the
    media-type checks built on the extension. */
module FileName {

  /** `s.lastIndexOf(c)`. */
  function LastIndexOf(s: string, c: char): (r: int)
    ensures -1 <= r < |s|
    ensures r >= 0 ==> s[r] == c
    ensures forall i :: r < i < |s| ==> s[i] != c
  {
    if |s| == 0 then -1
    else if s[|s| - 1] == c then |s| - 1
    else LastIndexOf(s[..|s| - 1], c)
  }

  /** `toLowerCase` on the ASCII capitals; every other character is kept. */
  function Lower(c: char): (r: char)
    ensures 'A' <= c <= 'Z' ==> 'a' <= r <= 'z' && r as int - c as int == 32
    ensures !('A' <= c <= 'Z') ==> r == c
  {
    if 'A' <= c <= 'Z' then (c as int + 32) as char else c
  }

  function LowerAll(s: string): (r: string)
    ensures |r| == |s|
    ensures forall i :: 0 <= i < |s| ==> r[i] == Lower(s[i])
  {
    if |s| == 0 then [] else [Lower(s[0])] + LowerAll(s[1..])
  }

  /** `getExtension(filename)`: empty without a dot, otherwise the lower-cased text
      after the last dot, which itself holds no dot. */
  function GetExtension(filename: string): (r: string)
    ensures '.' !in filename ==> r == ""
    ensures '.' !in r
    ensures forall i :: 0 <= i < |r| ==> !('A' <= r[i] <= 'Z')
  {
    var idx := LastIndexOf(filename, '.');
    if idx == -1 then ""
    else
      var r := LowerAll(filename[idx + 1..]);
      assert forall i :: 0 <= i < |r| ==> r[i] == Lower(filename[idx + 1 + i]);
      r
  }

  /** `getBasename(filename)`: the whole name without a dot, otherwise the text
      before the last dot. */
  function GetBasename(filename: string): (r: string)
    ensures '.' !in filename ==> r == filename
    ensures r <= filename
  {
    var idx := LastIndexOf(filename, '.');
    if idx == -1 then filename else filename[..idx]
  }

  /** A name with a dot is its base name, the dot, and (up to case) its extension. */
  lemma BasenameDotExtension(filename: string)
    requires '.' in filename
    ensures var b := GetBasename(filename);
      |filename| == |b| + 1 + |GetExtension(filename)| &&
      filename[|b|] == '.' &&
      LowerAll(filename[|b| + 1..]) == GetExtension(filename)
  {
    var idx := LastIndexOf(filename, '.');
    assert idx != -1 by {
      var k :| 0 <= k < |filename| && filename[k] == '.';
    }
  }

  const ImageExtensions: seq<string> := ["jpg", "jpeg", "png", "gif", "webp", "svg", "bmp", "ico"]
  const VideoExtensions: seq<string> := ["mp4", "webm", "ogg", "mov", "avi", "wmv", "flv", "mkv"]
  const AudioExtensions: seq<string> := ["mp3", "wav", "ogg", "aac", "flac", "wma", "m4a"]

  /** `isImage(file)` on a file name. */
  predicate IsImage(filename: string) {
    GetExtension(filename) in ImageExtensions
  }

  /** `isVideo(file)` on a file name. */
  predicate IsVideo(filename: string) {
    GetExtension(filename) in VideoExtensions
  }

  /** `isAudio(file)` on a file name. */
  predicate IsAudio(filename: string) {
    GetExtension(filename) in AudioExtensions
  }

  /** A name without a dot is no media file. */
  lemma NoDotNoMedia(filename: string)
    requires '.' !in filename
    ensures !IsImage(filename) && !IsVideo(filename) && !IsAudio(filename)
  {
  }

  /** The dot `LastIndexOf` finds is the one with no dot after it. */
  lemma LastIndexOfIs(s: string, c: char, k: nat)
    requires k < |s| && s[k] == c
    requires forall i :: k < i < |s| ==> s[i] != c
    ensures LastIndexOf(s, c) == k
  {
  }

  /** Joining a base name and a dot-free extension with a dot splits back into the
      two: the base name, and the extension lower-cased. */
  lemma SplitAtLastDot(base: string, ext: string)
    requires '.' !in ext
    ensures GetExtension(base + "." + ext) == LowerAll(ext)
    ensures GetBasename(base + "." + ext) == base
  {
    var f := base + "." + ext;
    assert f[|base|] == '.';
    assert forall i :: |base| < i < |f| ==> f[i] == ext[i - |base| - 1];
    LastIndexOfIs(f, '.', |base|);
    assert f[|base| + 1..] == ext;
    assert f[..|base|] == base;
  }

  /** The extension is compared after lower-casing, so an upper-case image name is an
      image. */
  lemma UpperCaseImage(base: string)
    ensures IsImage(base + ".JPG")
  {
    SplitAtLastDot(base, "JPG");
    assert base + "." + "JPG" == base + ".JPG";
    assert LowerAll("JPG") == "jpg" == ImageExtensions[0];
  }

  /** `ogg` is in both the video and the audio list. */
  lemma OggIsVideoAndAudio(base: string)
    ensures IsVideo(base + ".ogg") && IsAudio(base + ".ogg")
  {
    SplitAtLastDot(base, "ogg");
    assert base + "." + "ogg" == base + ".ogg";
    assert LowerAll("ogg") == "ogg" == VideoExtensions[2] == AudioExtensions[2];
  }

  /** No extension is both an image and a video or audio extension. */
  lemma ImagesAreNotMedia(filename: string)
    ensures IsImage(filename) ==> !IsVideo(filename) && !IsAudio(filename)
  {
    var e := GetExtension(filename);
    if e in ImageExtensions {
      ImageIsNotMedia(e);
    }
  }

  lemma ImageIsNotMedia(e: string)
    requires e in ImageExtensions
    ensures e !in VideoExtensions && e !in AudioExtensions
  {
    if e[0] == 'w' {
      assert e == "webp";
    } else {
      assert e[0] in "jpgsbi";
    }
  }
}

/** How a downloaded file is delivered (`send_file`), and the `.mp3` name the
    audio download reports (`download_audio`). */
module Delivery {
  import opened Text

  // ---------------------------------------------------------------------------
  // Renaming an audio download

  /** Python's `s.rfind(c)`: the last index of `c` in `s`, or -1. */
  function RFind(s: string, c: char): (i: int)
    ensures -1 <= i < |s|
    ensures i >= 0 ==> s[i] == c
    ensures forall k :: i < k < |s| ==> s[k] != c
    decreases |s|
  {
    if |s| == 0 then -1
    else if s[|s| - 1] == c then |s| - 1
    else RFind(s[..|s| - 1], c)
  }

  /** Searching backwards in `a + b` finds the last `c` of `b` when there is one. */
  lemma RFindAppend(a: string, b: string, c: char)
    requires c in b
    ensures RFind(a + b, c) == |a| + RFind(b, c)
  {
    assert (a + b)[|a| + RFind(b, c)] == c;
  }

  /** Searching backwards in `a + b` finds the last `c` of `a` when `b` has none. */
  lemma RFindAppendWithout(a: string, b: string, c: char)
    requires c !in b
    ensures RFind(a + b, c) == RFind(a, c)
  {
    assert forall k :: 0 <= k < |a| ==> (a + b)[k] == a[k];
  }

  /** Some character of `p` strictly between `from` and `to` is not a dot. */
  predicate HasNonDotBetween(p: string, from: int, to: int)
    requires 0 <= from && to <= |p|
  {
    exists k | from <= k < to :: p[k] != '.'
  }

  /** `os.path.splitext` on POSIX paths (separator `/`): the extension is
      everything from the last dot of the last path component, unless every
      character of that component before the dot is also a dot. */
  function SplitExt(p: string): (r: (string, string))
    ensures r.0 + r.1 == p
    ensures r.1 == "" || (r.1[0] == '.' && '.' !in r.1[1..] && '/' !in r.1)
    ensures r.1 != "" <==>
              exists k, m :: RFind(p, '/') < k < m < |p| && p[k] != '.' && p[m] == '.'
  {
    var sepIndex := RFind(p, '/');
    var dotIndex := RFind(p, '.');
    if dotIndex > sepIndex && HasNonDotBetween(p, sepIndex + 1, dotIndex) then
      assert p[dotIndex..][1..] == p[dotIndex + 1..];
      (p[..dotIndex], p[dotIndex..])
    else
      (p, "")
  }

  const Mp3Extension: string := ".mp3"

  /** `os.path.splitext(filename)[0] + '.mp3'`: the name the audio download
      reports once the converter has produced an MP3 file. */
  function AudioFileName(filename: string): (r: string)
    ensures EndsWith(r, Mp3Extension)
    ensures StartsWith(filename, r[..|r| - |Mp3Extension|])
  {
    var r := SplitExt(filename).0 + Mp3Extension;
    assert r[..|r| - |Mp3Extension|] == SplitExt(filename).0;
    r
  }

  /** A file name that has an extension keeps its stem through the rename: the
      renamed file splits into the same stem and `.mp3`. */
  lemma {:induction false} AudioFileNameSplits(filename: string)
    requires SplitExt(filename).1 != ""
    ensures SplitExt(AudioFileName(filename)) == (SplitExt(filename).0, Mp3Extension)
  {
    var root := SplitExt(filename).0;
    var p := root + Mp3Extension;
    var sep := RFind(filename, '/');
    var dot := RFind(filename, '.');
    assert root == filename[..dot];
    assert '/' !in Mp3Extension;
    RFindAppendWithout(root, Mp3Extension, '/');
    RFindAppend(root, Mp3Extension, '.');
    assert RFind(Mp3Extension, '.') == 0;
    assert RFind(root, '/') == sep by {
      assert filename == root + filename[dot..];
      assert '/' !in filename[dot..];
      RFindAppendWithout(root, filename[dot..], '/');
    }
    var k :| sep + 1 <= k < dot && filename[k] != '.';
    assert p[k] == filename[k];
    assert HasNonDotBetween(p, RFind(p, '/') + 1, RFind(p, '.'));
  }

  // ---------------------------------------------------------------------------
  // The send decision

  /** Telegram's upload ceiling for bots as the source states it: 50 MiB. */
  const MaxUploadBytes: nat := 50 * 1024 * 1024

  /** What `send_file` does with a file of the given size and path. */
  datatype Decision = TooLarge | SendAudio | SendVideo

  /** The decision at bot.py:277-302: refuse a file above the ceiling, send a
      `.mp3` file as audio, and send everything else as video. */
  function Decide(size: nat, path: string): (d: Decision)
    ensures d == TooLarge <==> size > MaxUploadBytes
    ensures d == SendAudio <==> size <= MaxUploadBytes && EndsWith(path, Mp3Extension)
    ensures d == SendVideo <==> size <= MaxUploadBytes && !EndsWith(path, Mp3Extension)
  {
    if size > MaxUploadBytes then TooLarge
    else if EndsWith(path, Mp3Extension) then SendAudio
    else SendVideo
  }

  /** An audio download small enough to send is always sent as audio, whatever
      name the downloader chose. */
  lemma AudioDownloadSentAsAudio(filename: string, size: nat)
    requires size <= MaxUploadBytes
    ensures Decide(size, AudioFileName(filename)) == SendAudio
  {
  }
}

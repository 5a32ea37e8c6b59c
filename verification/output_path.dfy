/** The destination path of a remux: the source path with its last extension
    replaced by ".mp4", where "extension" follows the POSIX `os.path.splitext`
    rule (a dot in the basename, after at least one non-dot character of it). */
module OutputPath {
  import opened Text

  /** Position of the last `c` in `s`, or -1 (`str.rfind`). */
  function RFind(s: string, c: char): (r: int)
    ensures -1 <= r < |s|
    ensures r >= 0 ==> s[r] == c
    ensures forall k :: r < k < |s| ==> s[k] != c
  {
    if |s| == 0 then -1
    else if s[|s| - 1] == c then |s| - 1
    else RFind(s[..|s| - 1], c)
  }

  /** The last occurrence is unique: any position holding `c` with no `c` after it is it. */
  lemma RFindIsLast(s: string, c: char, r: int)
    requires -1 <= r < |s|
    requires r >= 0 ==> s[r] == c
    requires forall k :: r < k < |s| ==> s[k] != c
    ensures RFind(s, c) == r
  {
  }

  /** `os.path.splitext(p)`: a pair (root, ext). The extension starts at the last
      dot, provided that dot lies after the last slash and some non-dot character
      of the basename comes before it; otherwise the extension is empty. */
  function SplitExt(p: string): (r: (string, string))
    ensures r.0 + r.1 == p
    ensures r.1 == "" || r.1[0] == '.'
  {
    var sepIndex := RFind(p, '/');
    var dotIndex := RFind(p, '.');
    if dotIndex > sepIndex && exists k :: sepIndex < k < dotIndex && p[k] != '.'
    then (p[..dotIndex], p[dotIndex..])
    else (p, "")
  }

  /** The directory part of a path: everything up to and including its last slash. */
  function Dir(p: string): string
  {
    p[..RFind(p, '/') + 1]
  }

  /** Stated independently of the last-dot search: the basename contains a
      non-dot character that some later dot follows. */
  predicate HasExtension(p: string)
  {
    exists i, j :: 0 <= i < j < |p| && p[i] != '.' && p[j] == '.' && '/' !in p[i..]
  }

  /** `os.path.splitext(src)[0] + ".mp4"`: the destination of the remux. */
  function Mp4Path(src: string): (dst: string)
    ensures |dst| >= 4 && dst[|dst| - 4..] == ".mp4"
    ensures dst[..|dst| - 4] + SplitExt(src).1 == src
  {
    SplitExt(src).0 + ".mp4"
  }

  /** What splitext promises: root and extension concatenate to the path; the
      extension is empty or a single dot followed by neither dots nor slashes; it
      is non-empty exactly when the basename has an extension in the sense of
      `HasExtension`. */
  lemma SplitExtSpec(p: string)
    ensures SplitExt(p).0 + SplitExt(p).1 == p
    ensures SplitExt(p).1 == "" ||
      (SplitExt(p).1[0] == '.' && '.' !in SplitExt(p).1[1..] && '/' !in SplitExt(p).1)
    ensures SplitExt(p).1 != "" <==> HasExtension(p)
  {
    var sepIndex := RFind(p, '/');
    var dotIndex := RFind(p, '.');
    var (root, ext) := SplitExt(p);
    if ext != "" {
      var k :| sepIndex < k < dotIndex && p[k] != '.';
      assert '/' !in p[k..] by {
        forall m | 0 <= m < |p[k..]| ensures p[k..][m] != '/' {
          assert p[k..][m] == p[k + m];
        }
      }
      assert HasExtension(p);
      forall m | 1 <= m < |ext| ensures ext[m] != '.' && ext[m] != '/' {
        assert ext[m] == p[dotIndex + m];
      }
    } else {
      assert !HasExtension(p);
    }
  }

  /** The derived destination keeps the directory of the source, and is the source
      with its extension (if any) replaced by ".mp4". */
  lemma Mp4PathShape(src: string)
    ensures Dir(Mp4Path(src)) == Dir(src)
    ensures Mp4Path(src) == SplitExt(src).0 + ".mp4"
    ensures EndsWith(Mp4Path(src), ".mp4")
    ensures HasExtension(src) ==> exists ext :: src == SplitExt(src).0 + ext && ext != "" && ext[0] == '.'
    ensures !HasExtension(src) ==> Mp4Path(src) == src + ".mp4"
  {
    SplitExtSpec(src);
    var (root, ext) := SplitExt(src);
    var out := Mp4Path(src);
    var sepIndex := RFind(src, '/');
    assert |root| > sepIndex;
    assert forall k :: 0 <= k <= sepIndex ==> out[k] == src[k];
    forall k | sepIndex < k < |out| ensures out[k] != '/' {
      if k < |root| {
        assert out[k] == src[k];
      } else {
        assert out[k] == ".mp4"[k - |root|];
      }
    }
    RFindIsLast(out, '/', sepIndex);
    assert Dir(out) == out[..sepIndex + 1] == src[..sepIndex + 1];
    assert out[|out| - 4..] == ".mp4";
  }
}

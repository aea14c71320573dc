/** `extract_audio`: write the video's audio track to a file. Only the
    advisory container check and the effect on the filesystem are modelled;
    the demuxing itself is an input. */
module AudioExtractor {
  import opened Outcomes
  import opened Files

  /** `s.rfind(c)`: the last index holding `c`, or -1. */
  function RFind(s: string, c: char): (i: int)
    ensures -1 <= i < |s|
    ensures i >= 0 ==> s[i] == c
    ensures forall j :: i < j < |s| ==> s[j] != c
  {
    if s == [] then -1
    else if s[|s| - 1] == c then |s| - 1
    else RFind(s[..|s| - 1], c)
  }

  /** `os.path.splitext(p)[1]` with the POSIX separator `/`: the part of the
      last path component from its last dot, unless only dots precede that
      dot in the component (so `.mkv` alone has no extension). */
  function Extension(p: string): (e: string)
    ensures |e| <= |p| && p[|p| - |e|..] == e
    ensures e != [] ==> e[0] == '.' && '/' !in e && '.' !in e[1..]
  {
    var sep := RFind(p, '/');
    var dot := RFind(p, '.');
    if dot > sep && exists j :: sep + 1 <= j < dot && p[j] != '.' then p[dot..] else ""
  }

  function ToLower(c: char): char {
    if 'A' <= c <= 'Z' then (c as int + 32) as char else c
  }

  /** `s.lower()` on ASCII letters. */
  function Lower(s: string): string {
    seq(|s|, i requires 0 <= i < |s| => ToLower(s[i]))
  }

  /** `extract_audio` logs a warning when the file extension is not `.mkv`, in any letter case. */
  predicate WarnsNotMkv(videoPath: string) {
    Lower(Extension(videoPath)) != ".mkv"
  }

  /** `RFind` is pinned down by its contract. */
  lemma RFindIs(s: string, c: char, x: int)
    requires -1 <= x < |s| && (x >= 0 ==> s[x] == c)
    requires forall j :: x < j < |s| ==> s[j] != c
    ensures RFind(s, c) == x
  {
  }

  /** A last path component `stem + ext`, where `stem` has a character other
      than a dot and `ext` is a dot followed by no dot, has extension `ext`,
      whatever directory precedes it. */
  lemma ExtensionOfName(dir: string, stem: string, ext: string)
    requires dir == [] || dir[|dir| - 1] == '/'
    requires '/' !in stem && exists j :: 0 <= j < |stem| && stem[j] != '.'
    requires |ext| >= 1 && ext[0] == '.' && '/' !in ext && '.' !in ext[1..]
    ensures Extension(dir + stem + ext) == ext
  {
    var p := dir + stem + ext;
    var sep, dot := |dir| - 1, |dir| + |stem|;
    forall j | sep < j < |p| ensures p[j] != '/' {
      if j < dot { assert p[j] == stem[j - |dir|]; } else { assert p[j] == ext[j - dot]; }
    }
    forall j | dot < j < |p| ensures p[j] != '.' {
      assert p[j] == ext[j - dot] == ext[1..][j - dot - 1];
    }
    assert sep >= 0 ==> p[sep] == '/';
    assert p[dot] == '.';
    RFindIs(p, '/', sep);
    RFindIs(p, '.', dot);
    var j0 :| 0 <= j0 < |stem| && stem[j0] != '.';
    assert p[|dir| + j0] == stem[j0];
    assert p[dot..] == ext;
  }

  /** Conversely, a last component in which no dot follows its first
      character other than a dot has no extension. */
  lemma NoExtension(dir: string, name: string)
    requires dir == [] || dir[|dir| - 1] == '/'
    requires '/' !in name
    requires forall i, j :: 0 <= i < j < |name| && name[i] != '.' ==> name[j] != '.'
    ensures Extension(dir + name) == ""
  {
    var p := dir + name;
    var sep := |dir| - 1;
    forall j | sep < j < |p| ensures p[j] != '/' {
      assert p[j] == name[j - |dir|];
    }
    assert sep >= 0 ==> p[sep] == '/';
    RFindIs(p, '/', sep);
    var dot := RFind(p, '.');
    if dot > sep {
      forall j | sep + 1 <= j < dot ensures p[j] == '.' {
        assert p[j] == name[j - |dir|] && p[dot] == name[dot - |dir|];
      }
    }
  }

  /** A file `<stem>.mkv`, in any letter case, in any directory or none,
      draws no warning; the stem may hold further dots. */
  lemma MkvNotWarned(dir: string, stem: string, ext: string)
    requires dir == [] || dir[|dir| - 1] == '/'
    requires '/' !in stem && exists j :: 0 <= j < |stem| && stem[j] != '.'
    requires |ext| == 4 && ext[0] == '.' && Lower(ext) == ".mkv"
    ensures !WarnsNotMkv(dir + stem + ext)
  {
    forall i | 1 <= i < 4 ensures ext[i] != '.' && ext[i] != '/' {
      assert ToLower(ext[i]) == ".mkv"[i];
    }
    assert '/' !in ext by {
      forall i | 0 <= i < 4 ensures ext[i] != '/' {}
    }
    assert '.' !in ext[1..] by {
      forall i | 0 <= i < 3 ensures ext[1..][i] != '.' { assert ext[1..][i] == ext[i + 1]; }
    }
    ExtensionOfName(dir, stem, ext);
  }

  /** A bare file name `clip.mkv`, with no directory, draws no warning. */
  lemma BareNameNotWarned()
    ensures !WarnsNotMkv("clip.mkv")
  {
    var ext := ".mkv";
    assert Lower(ext) == ".mkv" by {
      assert forall i :: 0 <= i < 4 ==> Lower(ext)[i] == ToLower(ext[i]);
    }
    assert "clip"[0] == 'c';
    assert "" + "clip" + ext == "clip.mkv";
    MkvNotWarned("", "clip", ext);
  }

  /** A stem with inner dots and an upper-case extension, `my.clip.MKV`, draws no warning. */
  lemma DottedStemNotWarned()
    ensures !WarnsNotMkv("my.clip.MKV")
  {
    var ext := ".MKV";
    assert Lower(ext) == ".mkv" by {
      assert forall i :: 0 <= i < 4 ==> Lower(ext)[i] == ToLower(ext[i]);
      assert ToLower('M') == 'm' && ToLower('K') == 'k' && ToLower('V') == 'v';
    }
    assert "my.clip"[0] == 'm';
    assert '/' !in "my.clip" by {
      assert forall i :: 0 <= i < 7 ==> "my.clip"[i] != '/';
    }
    assert "" + "my.clip" + ext == "my.clip.MKV";
    MkvNotWarned("", "my.clip", ext);
  }

  /** A hidden file `.mkv` has no extension and so draws the warning. */
  lemma HiddenFileWarned()
    ensures Extension(".mkv") == ""
    ensures WarnsNotMkv(".mkv")
  {
    assert RFind(".mkv", '/') == -1;
    assert ".mkv"[0] == '.' && ".mkv"[1] == 'm' && ".mkv"[2] == 'k' && ".mkv"[3] == 'v';
    assert RFind(".mkv", '.') == 0;
  }

  /** `extract_audio(videoPath, audioPath)`. `track` is what demuxing yields:
      the decoded audio, or None when MoviePy raises. The extension check only
      warns: the outcome does not depend on it. */
  method ExtractAudio(fs: FileSystem, videoPath: string, track: Option<seq<int>>, audioPath: Path)
    returns (r: Outcome, warned: bool)
    modifies fs
    ensures warned == WarnsNotMkv(videoPath)
    ensures r == if track.Some? then Pass else Fail(AudioExtractionFailed)
    ensures fs.entries == if track.Some? then old(fs.entries)[audioPath := Audio(track.value)] else old(fs.entries)
  {
    warned := Lower(Extension(videoPath)) != ".mkv";
    if track.None? {
      // logged and re-raised
      return Fail(AudioExtractionFailed), warned;
    }
    fs.Write(audioPath, Audio(track.value));
    r := Pass;
  }
}

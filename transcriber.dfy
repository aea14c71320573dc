/** `audio_to_text`: split the audio into fixed-length chunks, hand each chunk
    to the speech recogniser through a temporary file, and join the texts
    that were recognised. */
module Transcriber {
  import opened Outcomes
  import opened Decimal
  import opened Files

  // ---------------------------------------------------------------------
  // Chunking: `[audio[i:i + C] for i in range(0, len(audio), C)]`

  /** `a[lo:hi]` for non-negative bounds, clipped to the sequence as pydub does. */
  function Slice(a: seq<int>, lo: int, hi: int): seq<int>
    requires 0 <= lo
  {
    if lo >= |a| || hi <= lo then [] else a[lo..Min(hi, |a|)]
  }

  /** The chunks of `a` for a positive chunk length `c`: one slice per start
      `0, c, 2c, ... < |a|`. */
  function Chunks(a: seq<int>, c: nat): seq<seq<int>>
    requires c > 0
  {
    seq(CeilDiv(|a|, c), j requires 0 <= j => Slice(a, j * c, j * c + c))
  }

  /** The chunk list for any chunk length other than 0: a negative step makes
      `range(0, len(audio), step)` empty. */
  function ChunkList(a: seq<int>, c: int): seq<seq<int>>
    requires c != 0
  {
    if c > 0 then Chunks(a, c) else []
  }

  function Flatten(ss: seq<seq<int>>): seq<int> {
    if ss == [] then [] else ss[0] + Flatten(ss[1..])
  }

  lemma SliceShift(a: seq<int>, c: nat, lo: nat, hi: int)
    requires c <= |a|
    ensures Slice(a, c + lo, c + hi) == Slice(a[c..], lo, hi)
  {
  }

  lemma CeilDivShift(n: nat, c: nat)
    requires c > 0 && n > c
    ensures CeilDiv(n, c) == 1 + CeilDiv(n - c, c)
  {
    var x := n - c + c - 1;
    DivideOut(x / c + 1, c, x % c);
    assert n + c - 1 == (x / c + 1) * c + x % c;
  }

  lemma CeilDivSmall(n: nat, c: nat)
    requires c > 0 && 0 < n <= c
    ensures CeilDiv(n, c) == 1
  {
    DivideOut(1, c, n - 1);
  }

  lemma CeilDivZero(c: nat)
    requires c > 0
    ensures CeilDiv(0, c) == 0
  {
    DivideOut(0, c, c - 1);
  }

  /** The chunk list, one chunk at a time. */
  lemma ChunksUnfold(a: seq<int>, c: nat)
    requires c > 0
    ensures a == [] ==> Chunks(a, c) == []
    ensures 0 < |a| <= c ==> Chunks(a, c) == [a]
    ensures |a| > c ==> Chunks(a, c) == [a[..c]] + Chunks(a[c..], c)
  {
    if a == [] {
      CeilDivZero(c);
    } else if |a| <= c {
      ChunksSingle(a, c);
    } else {
      ChunksCons(a, c);
    }
  }

  lemma ChunksSingle(a: seq<int>, c: nat)
    requires c > 0 && 0 < |a| <= c
    ensures Chunks(a, c) == [a]
  {
    CeilDivSmall(|a|, c);
    assert 0 * c == 0;
    assert Chunks(a, c)[0] == Slice(a, 0, c) == a[0..|a|];
    assert a[0..|a|] == a;
    assert |Chunks(a, c)| == 1;
  }

  lemma ChunksCons(a: seq<int>, c: nat)
    requires c > 0 && |a| > c
    ensures Chunks(a, c) == [a[..c]] + Chunks(a[c..], c)
  {
    CeilDivShift(|a|, c);
    var rest := Chunks(a[c..], c);
    assert 0 * c == 0;
    assert Chunks(a, c)[0] == a[..c];
    forall j | 0 <= j < |rest|
      ensures Chunks(a, c)[j + 1] == rest[j]
    {
      assert (j + 1) * c == c + j * c;
      SliceShift(a, c, j * c, j * c + c);
    }
    assert Chunks(a, c) == [a[..c]] + rest;
  }

  /** Concatenating the chunks gives back the whole audio. */
  lemma {:induction false} ChunksConcat(a: seq<int>, c: nat)
    requires c > 0
    ensures Flatten(Chunks(a, c)) == a
    decreases |a|
  {
    ChunksUnfold(a, c);
    if 0 < |a| <= c {
      assert Flatten([a]) == a + Flatten([]);
    } else if |a| > c {
      ChunksConcat(a[c..], c);
      var rest := Chunks(a[c..], c);
      assert ([a[..c]] + rest)[1..] == rest;
      assert a[..c] + a[c..] == a;
    }
  }

  /** There are `ceil(|a| / c)` chunks, all non-empty; every chunk but the
      last has exactly `c` elements, and the last has `|a| - c * (count - 1)`. */
  lemma {:induction false} ChunkSizes(a: seq<int>, c: nat)
    requires c > 0
    ensures |Chunks(a, c)| == CeilDiv(|a|, c)
    ensures forall j :: 0 <= j < |Chunks(a, c)| ==> 0 < |Chunks(a, c)[j]| <= c
    ensures forall j :: 0 <= j < |Chunks(a, c)| - 1 ==> |Chunks(a, c)[j]| == c
    ensures a != [] ==> |Chunks(a, c)[|Chunks(a, c)| - 1]| == |a| - c * (|Chunks(a, c)| - 1)
    decreases |a|
  {
    ChunksUnfold(a, c);
    if |a| > c {
      ChunkSizes(a[c..], c);
      var rest := Chunks(a[c..], c);
      assert Chunks(a, c) == [a[..c]] + rest;
      assert forall j :: 1 <= j < |Chunks(a, c)| ==> Chunks(a, c)[j] == rest[j - 1];
      assert |a| - c * (|rest| + 1 - 1) == |a[c..]| - c * (|rest| - 1);
    }
  }

  /** The last chunk runs for `|a| mod c` milliseconds, or a full `c` when
      `c` divides the length. */
  lemma LastChunkLength(a: seq<int>, c: nat)
    requires c > 0 && a != []
    ensures |Chunks(a, c)| >= 1
    ensures |Chunks(a, c)[|Chunks(a, c)| - 1]| == if |a| % c == 0 then c else |a| % c
  {
    ChunkSizes(a, c);
    var n := |Chunks(a, c)|;
    CeilDivZero(c);
    assert n >= 1 by {
      if n == 0 {
        DivideOut(0, c, |a| + c - 1 - c);
        assert false;
      }
    }
    var last := |Chunks(a, c)[n - 1]|;
    assert |a| == (n - 1) * c + last;
    if last == c {
      DivideOut(n, c, 0);
      assert |a| == n * c + 0;
    } else {
      DivideOut(n - 1, c, last);
    }
  }

  // ---------------------------------------------------------------------
  // What the recogniser says, and the transcript

  /** The recogniser's answer for one chunk: its text, `UnknownValueError`
      (nothing intelligible) or `RequestError` (the service call failed). */
  datatype Recognition = Recognized(text: string) | UnknownValue | RequestError

  /** The recogniser's answer for every chunk, by chunk number. */
  function Recognitions(recognize: (nat, seq<int>) -> Recognition, chunks: seq<seq<int>>): seq<Recognition> {
    seq(|chunks|, j requires 0 <= j < |chunks| => recognize(j, chunks[j]))
  }

  /** The recognised texts in chunk order; failed chunks contribute nothing. */
  function Texts(rs: seq<Recognition>): seq<string> {
    if rs == [] then []
    else (if rs[0].Recognized? then [rs[0].text] else []) + Texts(rs[1..])
  }

  /** `" ".join(ts)`. */
  function Join(ts: seq<string>): string {
    if ts == [] then ""
    else if |ts| == 1 then ts[0]
    else ts[0] + " " + Join(ts[1..])
  }

  /** `s.split(" ")`: the pieces between single spaces. */
  function Split(s: string): (r: seq<string>)
    ensures |r| >= 1
  {
    if s == [] then [""]
    else if s[0] == ' ' then [""] + Split(s[1..])
    else var rest := Split(s[1..]); [[s[0]] + rest[0]] + rest[1..]
  }

  /** The texts of consecutive runs of chunks are consecutive. */
  lemma {:induction false} TextsAppend(rs: seq<Recognition>, qs: seq<Recognition>)
    ensures Texts(rs + qs) == Texts(rs) + Texts(qs)
  {
    if rs == [] {
      assert rs + qs == qs;
    } else {
      assert (rs + qs)[1..] == rs[1..] + qs;
      TextsAppend(rs[1..], qs);
    }
  }

  /** A chunk that fails contributes nothing, however many succeed around it. */
  lemma SkipsFailedChunk(rs: seq<Recognition>, failed: Recognition, qs: seq<Recognition>)
    requires !failed.Recognized?
    ensures Texts(rs + [failed] + qs) == Texts(rs + qs)
  {
    TextsAppend(rs + [failed], qs);
    TextsAppend(rs, [failed]);
    TextsAppend(rs, qs);
  }

  /** When no chunk is recognised the transcript is the empty string. */
  lemma {:induction false} NoTextWhenAllFail(rs: seq<Recognition>)
    requires forall j :: 0 <= j < |rs| ==> !rs[j].Recognized?
    ensures Texts(rs) == []
    ensures Join(Texts(rs)) == ""
  {
    if rs != [] {
      NoTextWhenAllFail(rs[1..]);
    }
  }

  /** Adding one more recognised text adds exactly one separating space. */
  lemma {:induction false} JoinAppend(ts: seq<string>, t: string)
    requires ts != []
    ensures Join(ts + [t]) == Join(ts) + " " + t
  {
    if |ts| > 1 {
      assert (ts + [t])[1..] == ts[1..] + [t];
      JoinAppend(ts[1..], t);
    } else {
      assert (ts + [t])[1..] == [t];
    }
  }

  function TotalLength(ts: seq<string>): nat {
    if ts == [] then 0 else |ts[0]| + TotalLength(ts[1..])
  }

  /** The transcript holds the texts' characters plus one space between each two texts. */
  lemma {:induction false} JoinLength(ts: seq<string>)
    ensures |Join(ts)| == if ts == [] then 0 else TotalLength(ts) + |ts| - 1
  {
    if |ts| > 1 {
      JoinLength(ts[1..]);
    }
  }

  lemma {:induction false} SplitSpaceless(t: string)
    requires ' ' !in t
    ensures Split(t) == [t]
  {
    if t != [] {
      assert t[0] in t;
      SplitSpaceless(t[1..]);
      assert [t[0]] + t[1..] == t;
    }
  }

  lemma {:induction false} SplitAfterWord(t: string, rest: string)
    requires ' ' !in t
    ensures Split(t + " " + rest) == [t] + Split(rest)
  {
    if t == [] {
      assert t + " " + rest == [' '] + rest;
    } else {
      assert t[0] in t;
      assert (t + " " + rest)[0] == t[0];
      assert (t + " " + rest)[1..] == t[1..] + " " + rest;
      SplitAfterWord(t[1..], rest);
      assert [t[0]] + t[1..] == t;
    }
  }

  /** Splitting the transcript on single spaces gives back the texts, as long
      as no text contains a space itself. */
  lemma {:induction false} SplitJoin(ts: seq<string>)
    requires ts != []
    requires forall i :: 0 <= i < |ts| ==> ' ' !in ts[i]
    ensures Split(Join(ts)) == ts
  {
    if |ts| == 1 {
      SplitSpaceless(ts[0]);
    } else {
      SplitJoin(ts[1..]);
      SplitAfterWord(ts[0], Join(ts[1..]));
    }
  }

  // ---------------------------------------------------------------------
  // Temporary chunk files

  /** `f"chunk_{i:03d}.wav"`, in the working directory. */
  function ChunkPath(i: nat): Path {
    ["chunk_" + Format(i, 3) + ".wav"]
  }

  /** A path in the working directory named like a chunk's temporary file. */
  predicate IsChunkFile(p: Path) {
    |p| == 1 && |p[0]| >= 6 && p[0][..6] == "chunk_"
  }

  lemma ChunkPathIsChunkFile(i: nat)
    ensures IsChunkFile(ChunkPath(i))
  {
    assert ChunkPath(i)[0][..6] == "chunk_";
  }

  /** The temporary files of chunks `0 .. k - 1`. */
  function ChunkPaths(k: nat): set<Path> {
    set j: nat | j < k :: ChunkPath(j)
  }

  /** Distinct chunks use distinct temporary files. */
  lemma ChunkPathInjective(i: nat, j: nat)
    requires ChunkPath(i) == ChunkPath(j)
    ensures i == j
  {
    var s, t := Format(i, 3), Format(j, 3);
    assert ChunkPath(i)[0] == "chunk_" + s + ".wav";
    assert ("chunk_" + s + ".wav")[6..|s| + 6] == s;
    assert ("chunk_" + t + ".wav")[6..|t| + 6] == t;
    ValueOfFormat(i, 3);
    ValueOfFormat(j, 3);
  }

  /** The first chunk number in `from .. n - 1` whose export fails, or `n`. */
  function FirstIn(fails: set<nat>, from: nat, n: nat): (k: nat)
    requires from <= n
    ensures from <= k <= n
    ensures k < n ==> k in fails
    ensures forall j :: from <= j < k ==> j !in fails
    decreases n - from
  {
    if from == n then n else if from in fails then from else FirstIn(fails, from + 1, n)
  }

  /** The result of `audio_to_text(audioPath, chunkLength)` and the filesystem
      after it. `exportFails` names the chunks whose `export` raises; that call
      is outside the `try`, so such a chunk's file is left behind. */
  function Transcribe(m: Tree, audioPath: Path, chunkLength: int,
                      recognize: (nat, seq<int>) -> Recognition, exportFails: set<nat>): (Result<string>, Tree)
  {
    if audioPath !in m || !m[audioPath].Audio? then (Err(AudioLoadFailed), m)
    else if chunkLength == 0 then (Err(ChunkLengthZero), m)
    else
      var chunks := ChunkList(m[audioPath].samples, chunkLength);
      var k := FirstIn(exportFails, 0, |chunks|);
      if k < |chunks| then (Err(ChunkExportFailed(k)), (m - ChunkPaths(k))[ChunkPath(k) := Audio(chunks[k])])
      else (Ok(Join(Texts(Recognitions(recognize, chunks)))), m - ChunkPaths(|chunks|))
  }

  /** Transcription touches no path other than the `chunk_NNN.wav` files. */
  lemma TranscribeTouchesOnlyChunkFiles(m: Tree, audioPath: Path, chunkLength: int,
                                        recognize: (nat, seq<int>) -> Recognition, exportFails: set<nat>, p: Path)
    requires forall i: nat :: p != ChunkPath(i)
    ensures p in Transcribe(m, audioPath, chunkLength, recognize, exportFails).1 <==> p in m
    ensures p in m ==> Transcribe(m, audioPath, chunkLength, recognize, exportFails).1[p] == m[p]
  {
    assert forall k :: p !in ChunkPaths(k);
  }

  /** After a transcription that returns, no chunk file remains and nothing
      else has changed. */
  lemma TranscribeCleansUp(m: Tree, audioPath: Path, chunkLength: int,
                           recognize: (nat, seq<int>) -> Recognition, exportFails: set<nat>, p: Path)
    requires Transcribe(m, audioPath, chunkLength, recognize, exportFails).0.Ok?
    ensures forall i: nat :: ChunkPath(i) in Transcribe(m, audioPath, chunkLength, recognize, exportFails).1 ==>
      ChunkPath(i) in m && i >= |ChunkList(m[audioPath].samples, chunkLength)|
    ensures p !in ChunkPaths(|ChunkList(m[audioPath].samples, chunkLength)|) ==>
      (p in Transcribe(m, audioPath, chunkLength, recognize, exportFails).1 <==> p in m)
  {
    var n := |ChunkList(m[audioPath].samples, chunkLength)|;
    forall i: nat | i < n ensures ChunkPath(i) in ChunkPaths(n) {
    }
  }

  /** The transcript is the recognised chunk texts, in chunk order, joined
      by single spaces; it is empty when no chunk is recognised. */
  lemma TranscriptOfChunks(m: Tree, audioPath: Path, chunkLength: int,
                           recognize: (nat, seq<int>) -> Recognition, exportFails: set<nat>)
    requires audioPath in m && m[audioPath].Audio? && chunkLength > 0
    requires forall j :: 0 <= j < CeilDiv(|m[audioPath].samples|, chunkLength) ==> j !in exportFails
    ensures var chunks := Chunks(m[audioPath].samples, chunkLength);
      Transcribe(m, audioPath, chunkLength, recognize, exportFails).0 == Ok(Join(Texts(Recognitions(recognize, chunks))))
      && Flatten(chunks) == m[audioPath].samples
  {
    ChunksConcat(m[audioPath].samples, chunkLength);
  }

  /** An export failure aborts the transcription and leaves that chunk's file behind. */
  lemma ExportFailureLeavesChunk(m: Tree, audioPath: Path, chunkLength: int,
                                 recognize: (nat, seq<int>) -> Recognition, exportFails: set<nat>, k: nat)
    requires Transcribe(m, audioPath, chunkLength, recognize, exportFails).0 == Err(ChunkExportFailed(k))
    ensures k in exportFails && k < |ChunkList(m[audioPath].samples, chunkLength)|
    ensures ChunkPath(k) in Transcribe(m, audioPath, chunkLength, recognize, exportFails).1
    ensures forall j :: 0 <= j < k ==> j !in exportFails && ChunkPath(j) !in Transcribe(m, audioPath, chunkLength, recognize, exportFails).1
  {
    forall j | 0 <= j < k
      ensures ChunkPath(j) in ChunkPaths(k) && ChunkPath(j) != ChunkPath(k)
    {
      if ChunkPath(j) == ChunkPath(k) {
        ChunkPathInjective(j, k);
      }
    }
  }

  // ---------------------------------------------------------------------
  // The loop

  /** `audio_to_text(audioPath, chunkLength)`, with the recogniser as an
      oracle on the chunk number and the audio read back from the chunk file. */
  method AudioToText(fs: FileSystem, audioPath: Path, chunkLength: int,
                     recognize: (nat, seq<int>) -> Recognition, exportFails: set<nat>)
    returns (r: Result<string>)
    modifies fs
    ensures (r, fs.entries) == Transcribe(old(fs.entries), audioPath, chunkLength, recognize, exportFails)
  {
    ghost var m := fs.entries;
    if audioPath !in fs.entries || !fs.entries[audioPath].Audio? {
      return Err(AudioLoadFailed);
    }
    var audio := fs.entries[audioPath].samples;
    if chunkLength == 0 {
      return Err(ChunkLengthZero);
    }
    var chunks := ChunkList(audio, chunkLength);
    ghost var rs := Recognitions(recognize, chunks);
    var transcript: seq<string> := [];
    var i := 0;
    while i < |chunks|
      invariant 0 <= i <= |chunks|
      invariant forall j :: 0 <= j < i ==> j !in exportFails
      invariant transcript == Texts(rs[..i])
      invariant fs.entries == m - ChunkPaths(i)
    {
      var chunkPath := ChunkPath(i);
      // chunk.export(chunk_path) runs before the try block
      fs.Write(chunkPath, Audio(chunks[i]));
      if i in exportFails {
        assert FirstIn(exportFails, 0, |chunks|) == i;
        return Err(ChunkExportFailed(i));
      }
      var heard := recognize(i, fs.entries[chunkPath].samples);
      if heard.Recognized? {
        transcript := transcript + [heard.text];
      }
      // UnknownValueError and RequestError are logged and the loop goes on
      var _ := fs.Remove(chunkPath);
      assert rs[..i + 1] == rs[..i] + [rs[i]];
      TextsAppend(rs[..i], [rs[i]]);
      assert ChunkPaths(i + 1) == ChunkPaths(i) + {chunkPath};
      i := i + 1;
    }
    assert rs[..i] == rs;
    r := Ok(Join(transcript));
  }
}

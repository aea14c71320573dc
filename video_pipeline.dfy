/** `process_video`: allocate a workspace, run the stages in order, roll the
    workspace back when a stage raises, and always remove the temporary audio. */
module VideoPipeline {
  import opened Outcomes
  import opened Decimal
  import opened Files
  import opened FrameSampler
  import opened AudioExtractor
  import opened Transcriber
  import opened FolderAllocator

  /** The base directory `get_next_video_folder()` uses by default. */
  const Base: Path := ["uploads"]

  /** The chunk length `audio_to_text` uses by default, in milliseconds. */
  const ChunkLength: int := 60000

  /** The input video, as the decoders see it. */
  datatype Video = Video(
    path: string,              // video_path; only its extension is examined
    frames: nat,               // frames OpenCV decodes before end of stream
    stride: int,               // int(fps * 15), the frame interval
    track: Option<seq<int>>)   // the audio MoviePy writes, or None when it raises

  /** The outside world: the recogniser and the faults the model injects.
      `allocationFails == Some(d)` makes the workspace allocation raise once
      the first `d` directories of `uploads/video<N>/images` are in place:
      with 0, `os.makedirs("uploads")` raises; with 1, `os.makedirs` of the
      images folder raises before creating the workspace; with 2 or more,
      it raises after creating the workspace but before `images`. */
  datatype World = World(
    allocationFails: Option<nat>,               // workspace allocation raises
    recognize: (nat, seq<int>) -> Recognition,  // the recogniser's answer per chunk
    exportFails: set<nat>,                      // chunks whose export raises
    transcriptWriteFails: bool)                 // writing transcript.txt raises

  /** The dictionary `process_video` returns on success. */
  datatype Manifest = Manifest(videoFolder: Path, imagesFolder: Path, transcriptPath: Path)

  function ImagesFolder(folder: Path): Path {
    folder + ["images"]
  }

  function TranscriptPath(folder: Path): Path {
    folder + ["transcript.txt"]
  }

  function TempAudioPath(folder: Path): Path {
    folder + ["temp_audio.wav"]
  }

  /** The body of the `try` block, from the filesystem in which the workspace
      and its images folder have just been created. */
  function Stages(m: Tree, folder: Path, video: Video, world: World): (Result<Manifest>, Tree) {
    var images, transcript, temp := ImagesFolder(folder), TranscriptPath(folder), TempAudioPath(folder);
    var m1 := SampleFrames(m, images, video.frames, video.stride);
    var framesDone := ImagesOutcome(video.frames, video.stride);
    if framesDone.Fail? then (Err(framesDone.error), m1)
    else if video.track.None? then (Err(AudioExtractionFailed), m1)
    else
      var m2 := m1[temp := Audio(video.track.value)];
      var t := Transcribe(m2, temp, ChunkLength, world.recognize, world.exportFails);
      if t.0.Err? then (Err(t.0.error), t.1)
      else if world.transcriptWriteFails then (Err(TranscriptWriteFailed), t.1)
      else
        var m3 := t.1[transcript := Text(t.0.value)];
        if temp !in m3 then (Err(FileNotFound), m3)
        else (Ok(Manifest(folder, images, transcript)), m3 - {temp})
  }

  /** The result of `process_video` and the filesystem after it. */
  ghost function Run(m: Tree, video: Video, world: World): (Result<Manifest>, Tree) {
    if world.allocationFails.Some? then
      (Err(MakeDirsFailed), AfterAllocationFailure(m, world.allocationFails.value))
    else
      Conclude(Stages(Prepared(m), Workspace(m), video, world), Workspace(m))
  }

  /** The images folder, the transcript and the temporary audio file are
      three different entries of the workspace. */
  lemma WorkspaceEntriesDistinct(folder: Path)
    ensures ImagesFolder(folder) != TranscriptPath(folder)
    ensures ImagesFolder(folder) != TempAudioPath(folder)
    ensures TranscriptPath(folder) != TempAudioPath(folder)
  {
    assert ImagesFolder(folder)[|folder|][0] == 'i';
    assert TranscriptPath(folder)[|folder|][1] == 'r';
    assert TempAudioPath(folder)[|folder|][1] == 'e';
    assert TempAudioPath(folder)[|folder|][0] == 't';
  }

  /** The filesystem left when the allocation raises once the first `d`
      directories are in place. This happens before the `try`: nothing is
      rolled back and the `finally` clause does not run. */
  ghost function AfterAllocationFailure(m: Tree, d: nat): Tree {
    if d == 0 then m
    else AfterMakeDirs(AfterMakeDirs(m, Base), ImagesFolder(Workspace(m))[..Min(d, 2)])
  }

  /** The filesystem just before the `try`: `uploads`, the workspace and its
      images folder have been created. */
  ghost function Prepared(m: Tree): Tree {
    AfterMakeDirs(AfterMakeDirs(m, Base), ImagesFolder(Workspace(m)))
  }

  /** The `except` and `finally` clauses, after the stages ended with `s`. */
  function Conclude(s: (Result<Manifest>, Tree), folder: Path): (Result<Manifest>, Tree) {
    // except: rmtree(video_output_folder, ignore_errors=True); raise
    var m3 := if s.0.Err? then AfterRemoveTree(s.1, folder) else s.1;
    // finally: remove temp_audio.wav if it exists
    var m4 := if TempAudioPath(folder) in m3 then m3 - {TempAudioPath(folder)} else m3;
    (s.0, m4)
  }

  /** The workspace `process_video` allocates for a filesystem. */
  ghost function Workspace(m: Tree): Path {
    NextFolder(AfterMakeDirs(m, Base), Base)
  }

  // ---------------------------------------------------------------------
  // The workspace before the stages run

  /** The workspace is a folder `video<N>` directly under `uploads`, and
      nothing existed at or below it. */
  lemma WorkspaceIsNew(m: Tree)
    ensures |Workspace(m)| == 2 && Workspace(m)[..1] == Base
    ensures IsVideoFolder(Workspace(m)[1])
    ensures forall p :: p in AfterMakeDirs(m, Base) ==> !Under(p, Workspace(m))
  {
    var m1 := AfterMakeDirs(m, Base);
    NextVideoNameIsNext(ListingOf(Children(m1, Base)));
    forall p | p in m1 ensures !Under(p, Workspace(m)) {
      NextFolderFresh(m1, Base, p);
    }
  }

  lemma AncestorsOfImages(folder: Path, q: Path)
    requires |folder| == 2
    ensures q in Ancestors(ImagesFolder(folder)) <==> q == folder[..1] || q == folder || q == ImagesFolder(folder)
  {
    var images := ImagesFolder(folder);
    assert images[..1] == folder[..1] && images[..2] == folder && images[..3] == images;
    if q in Ancestors(images) {
      var i :| 1 <= i <= |images| && q == images[..i];
      assert i == 1 || i == 2 || i == 3;
    }
  }

  /** Just before the `try`: `uploads`, the workspace and its images folder
      exist, nothing else is below the workspace, and nothing outside it has
      changed apart from `uploads`. */
  lemma PreparedWorkspace(m: Tree, p: Path)
    ensures var folder := Workspace(m);
      var m2 := Prepared(m);
      && Ancestors(ImagesFolder(folder)) <= m2.Keys
      && (Under(p, folder) ==> (p in m2 <==> p == folder || p == ImagesFolder(folder)))
      && (Under(p, folder) && p in m2 ==> m2[p] == Dir)
      && (!Under(p, folder) && p != Base ==> (p in m2 <==> p in m) && (p in m ==> m2[p] == m[p]))
  {
    var folder := Workspace(m);
    var m1 := AfterMakeDirs(m, Base);
    WorkspaceIsNew(m);
    AncestorsOfImages(folder, p);
    assert Ancestors(Base) == {Base} by {
      assert Base[..1] == Base;
    }
    if Under(p, folder) {
      assert p !in m1;
    }
  }

  // ---------------------------------------------------------------------
  // Properties of a run

  /** When the allocation raises, which happens before the `try`, nothing is
      rolled back: `uploads` and the workspace stay once they were created,
      the images folder does not exist, and nothing else has changed. */
  lemma AllocationFailureKeepsDirectories(m: Tree, video: Video, world: World, p: Path)
    requires world.allocationFails.Some?
    ensures var d := Min(world.allocationFails.value, 2);
      var folder := Workspace(m);
      var m' := Run(m, video, world).1;
      && Run(m, video, world).0 == Err(MakeDirsFailed)
      && (d >= 1 ==> Base in m')
      && (d == 2 ==> folder in m' && m'[folder] == Dir)
      && (Under(p, folder) ==> (p in m' <==> d == 2 && p == folder))
      && (p != Base && !Under(p, folder) ==> (p in m' <==> p in m) && (p in m ==> m'[p] == m[p]))
  {
    var folder := Workspace(m);
    var images := ImagesFolder(folder);
    WorkspaceIsNew(m);
    assert images[..1] == Base == folder[..1] && images[..2] == folder;
    assert Ancestors(Base) == {Base} by {
      assert Base[..1] == Base;
    }
    assert Ancestors(folder) == {Base, folder} by {
      assert folder[..2] == folder;
      forall q | q in Ancestors(folder) ensures q == Base || q == folder {
        var i :| 1 <= i <= 2 && q == folder[..i];
      }
    }
    if Under(p, folder) {
      assert p !in AfterMakeDirs(m, Base);
    }
  }

  /** `temp_audio.wav` never survives a run: on success the `try` removed it,
      on failure `rmtree` did, so the `finally` clause finds nothing. */
  lemma TempAudioRemoved(m: Tree, video: Video, world: World)
    ensures TempAudioPath(Workspace(m)) !in Run(m, video, world).1
    ensures var folder := Workspace(m);
      var s := Stages(Prepared(m), folder, video, world);
      TempAudioPath(folder) !in (if s.0.Err? then AfterRemoveTree(s.1, folder) else s.1)
  {
    if world.allocationFails.Some? {
      AllocationFailureKeepsDirectories(m, video, world, TempAudioPath(Workspace(m)));
    }
  }

  /** A run in which a stage raises inside the `try` leaves nothing at or
      below its workspace. */
  lemma FailureRollsBack(m: Tree, video: Video, world: World, p: Path)
    requires Run(m, video, world).0.Err? && Run(m, video, world).0 != Err(MakeDirsFailed)
    requires p in Run(m, video, world).1
    ensures !Under(p, Workspace(m))
  {
  }

  /** Some chunk's export raises; the first such chunk aborts the run. */
  predicate ExportFails(video: Video, world: World)
    requires video.track.Some?
  {
    exists j :: 0 <= j < |Chunks(video.track.value, ChunkLength)| && j in world.exportFails
  }

  /** Which exception a run raises, by the step in which it arises: in the
      allocation, image extraction, audio extraction, chunk export or the
      transcript write; otherwise the run succeeds. */
  lemma RunErrorCause(m: Tree, video: Video, world: World)
    ensures var r := Run(m, video, world).0;
      var allocOk := world.allocationFails.None?;
      var imagesOk := allocOk && !(video.frames > 0 && video.stride == 0);
      && (r == Err(MakeDirsFailed) <==> !allocOk)
      && (r == Err(ZeroDivision) <==> allocOk && !imagesOk)
      && (r == Err(AudioExtractionFailed) <==> imagesOk && video.track.None?)
      && (r.Err? && r.error.ChunkExportFailed? <==> imagesOk && video.track.Some? && ExportFails(video, world))
      && (r.Err? && r.error.ChunkExportFailed? ==>
            r.error.chunk in world.exportFails && r.error.chunk < |Chunks(video.track.value, ChunkLength)|
            && forall j :: 0 <= j < r.error.chunk ==> j !in world.exportFails)
      && (r == Err(TranscriptWriteFailed) <==>
            imagesOk && video.track.Some? && !ExportFails(video, world) && world.transcriptWriteFails)
      && (r.Ok? <==> imagesOk && video.track.Some? && !ExportFails(video, world) && !world.transcriptWriteFails)
  {
    var folder := Workspace(m);
    var temp := TempAudioPath(folder);
    var m2 := Prepared(m);
    if world.allocationFails.None? && !(video.frames > 0 && video.stride == 0) && video.track.Some? {
      var m1 := SampleFrames(m2, ImagesFolder(folder), video.frames, video.stride)[temp := Audio(video.track.value)];
      var chunks := Chunks(video.track.value, ChunkLength);
      var k := FirstIn(world.exportFails, 0, |chunks|);
      var t := Transcribe(m1, temp, ChunkLength, world.recognize, world.exportFails);
      if k < |chunks| {
        assert t.0 == Err(ChunkExportFailed(k));
      } else {
        assert !ExportFails(video, world);
        TranscribeTouchesOnlyChunkFiles(m1, temp, ChunkLength, world.recognize, world.exportFails, temp);
        assert temp in t.1;
      }
    }
  }

  /** A successful run keeps what image extraction left at every path other
      than the transcript, the temporary audio file and the chunk files. */
  lemma SuccessKeepsFrameStage(m: Tree, video: Video, world: World, p: Path)
    requires Run(m, video, world).0.Ok?
    requires forall i: nat :: p != ChunkPath(i)
    requires p != TranscriptPath(Workspace(m)) && p != TempAudioPath(Workspace(m))
    ensures p in Run(m, video, world).1 <==> p in FrameStage(m, video)
    ensures p in FrameStage(m, video) ==> Run(m, video, world).1[p] == FrameStage(m, video)[p]
  {
    RunErrorCause(m, video, world);
    var temp := TempAudioPath(Workspace(m));
    var m1 := FrameStage(m, video)[temp := Audio(video.track.value)];
    TranscribeTouchesOnlyChunkFiles(m1, temp, ChunkLength, world.recognize, world.exportFails, p);
  }

  /** The filesystem image extraction leaves behind, before audio extraction. */
  ghost function FrameStage(m: Tree, video: Video): Tree {
    var folder := Workspace(m);
    var images := ImagesFolder(folder);
    SampleFrames(Prepared(m), images, video.frames, video.stride)
  }

  /** After image extraction, frame `n` is in the images folder, as its own
      image, iff it was decoded and the stride divides its index. */
  lemma FrameStageFrame(m: Tree, video: Video, n: nat)
    ensures var images := ImagesFolder(Workspace(m));
      && (FramePath(images, n) in FrameStage(m, video) <==>
            video.stride != 0 && n < video.frames && n % video.stride == 0)
      && (FramePath(images, n) in FrameStage(m, video) ==> FrameStage(m, video)[FramePath(images, n)] == Image(n))
  {
    var folder := Workspace(m);
    var images := ImagesFolder(folder);
    var p := FramePath(images, n);
    var m2 := Prepared(m);
    PreparedWorkspace(m, p);
    AncestorsOfImages(folder, p);
    if video.stride != 0 && n < video.frames && n % video.stride == 0 {
      SampleFramesWrites(m2, images, video.frames, video.stride, n);
    } else if p in FrameStage(m, video) {
      SampleFramesOnly(m2, images, video.frames, video.stride, p);
      var n': nat :| n' < video.frames && n' % video.stride == 0 && p == FramePath(images, n');
      FramePathInjective(images, n, n');
    }
  }

  /** After image extraction the workspace holds exactly itself, its images
      folder and the sampled frames, and outside it only `uploads` may have
      appeared. */
  lemma FrameStageContents(m: Tree, video: Video, p: Path)
    ensures var folder := Workspace(m);
      var images := ImagesFolder(folder);
      var m1 := FrameStage(m, video);
      && folder in m1 && m1[folder] == Dir && images in m1 && m1[images] == Dir
      && (Under(p, folder) ==>
            (p in m1 <==>
               (|| p == folder || p == images
                || (video.stride != 0 &&
                      exists n: nat :: n < video.frames && n % video.stride == 0 && p == FramePath(images, n)))))
      && (!Under(p, folder) && p != Base ==> (p in m1 <==> p in m) && (p in m ==> m1[p] == m[p]))
  {
    var folder := Workspace(m);
    var images := ImagesFolder(folder);
    var m2 := Prepared(m);
    WorkspaceIsNew(m);
    PreparedWorkspace(m, p);
    PreparedWorkspace(m, folder);
    PreparedWorkspace(m, images);
    MakeDirsExisting(m2, images);
    AncestorsOfImages(folder, p);
    if video.stride != 0 {
      var w := Written(video.frames, video.stride);
      WriteFramesElsewhere(m2, images, w, folder);
      WriteFramesElsewhere(m2, images, w, images);
      if !Under(p, folder) {
        WriteFramesElsewhere(m2, images, w, p);
      }
    }
    if Under(p, folder) && p in FrameStage(m, video) && p != folder && p != images {
      SampleFramesOnly(m2, images, video.frames, video.stride, p);
    }
    if Under(p, folder) && video.stride != 0 &&
       exists n: nat :: n < video.frames && n % video.stride == 0 && p == FramePath(images, n) {
      var n: nat :| n < video.frames && n % video.stride == 0 && p == FramePath(images, n);
      SampleFramesWrites(m2, images, video.frames, video.stride, n);
    }
  }

  /** On success the run's state is the transcription's state with the
      transcript written and the temporary audio file removed. */
  lemma SuccessState(m: Tree, video: Video, world: World)
    requires Run(m, video, world).0.Ok?
    ensures video.track.Some?
    ensures var folder := Workspace(m);
      var temp := TempAudioPath(folder);
      var t := Transcribe(FrameStage(m, video)[temp := Audio(video.track.value)], temp,
                          ChunkLength, world.recognize, world.exportFails);
      && t.0.Ok?
      && Run(m, video, world) == (Ok(Manifest(folder, ImagesFolder(folder), TranscriptPath(folder))),
                                  t.1[TranscriptPath(folder) := Text(t.0.value)] - {temp})
  {
    RunErrorCause(m, video, world);
  }

  /** After a successful run the workspace and its images folder exist as directories. */
  lemma SuccessFolders(m: Tree, video: Video, world: World)
    requires Run(m, video, world).0.Ok?
    ensures var folder := Workspace(m);
      var m' := Run(m, video, world).1;
      && folder in m' && m'[folder] == Dir
      && ImagesFolder(folder) in m' && m'[ImagesFolder(folder)] == Dir
  {
    var folder := Workspace(m);
    WorkspaceIsNew(m);
    WorkspaceEntriesDistinct(folder);
    FrameStageContents(m, video, folder);
    SuccessKeepsFrameStage(m, video, world, folder);
    SuccessKeepsFrameStage(m, video, world, ImagesFolder(folder));
  }

  /** After a successful run the transcript holds the recognised chunk texts
      joined by single spaces. */
  lemma SuccessTranscript(m: Tree, video: Video, world: World)
    requires Run(m, video, world).0.Ok?
    ensures video.track.Some?
    ensures var m' := Run(m, video, world).1;
      && TranscriptPath(Workspace(m)) in m'
      && m'[TranscriptPath(Workspace(m))] == Text(Join(Texts(Recognitions(world.recognize, Chunks(video.track.value, ChunkLength)))))
  {
    var folder := Workspace(m);
    SuccessState(m, video, world);
    WorkspaceEntriesDistinct(folder);
    var temp := TempAudioPath(folder);
    var m1 := FrameStage(m, video)[temp := Audio(video.track.value)];
    assert temp in m1 && m1[temp].samples == video.track.value;
    RunErrorCause(m, video, world);
    TranscriptOfChunks(m1, temp, ChunkLength, world.recognize, world.exportFails);
    var t := Transcribe(m1, temp, ChunkLength, world.recognize, world.exportFails);
    assert Run(m, video, world).1 == t.1[TranscriptPath(folder) := Text(t.0.value)] - {temp};
  }

  /** A successful run returns the workspace, its images folder and its
      transcript, all of which exist; the transcript holds the recognised
      chunk texts joined by single spaces. */
  lemma SuccessManifest(m: Tree, video: Video, world: World)
    requires Run(m, video, world).0.Ok?
    ensures video.track.Some?
    ensures var folder := Workspace(m);
      var m' := Run(m, video, world).1;
      && Run(m, video, world).0.value == Manifest(folder, ImagesFolder(folder), TranscriptPath(folder))
      && folder in m' && m'[folder] == Dir
      && ImagesFolder(folder) in m' && m'[ImagesFolder(folder)] == Dir
      && TranscriptPath(folder) in m'
      && m'[TranscriptPath(folder)] == Text(Join(Texts(Recognitions(world.recognize, Chunks(video.track.value, ChunkLength)))))
  {
    SuccessState(m, video, world);
    SuccessFolders(m, video, world);
    SuccessTranscript(m, video, world);
  }

  /** After a successful run, frame `n` is in the images folder, as its own
      image, iff it was decoded and the stride divides its index. */
  lemma SuccessFrames(m: Tree, video: Video, world: World, n: nat)
    requires Run(m, video, world).0.Ok?
    ensures var images := ImagesFolder(Workspace(m));
      && (FramePath(images, n) in Run(m, video, world).1 <==>
            video.stride != 0 && n < video.frames && n % video.stride == 0)
      && (FramePath(images, n) in Run(m, video, world).1 ==> Run(m, video, world).1[FramePath(images, n)] == Image(n))
  {
    FrameStageFrame(m, video, n);
    SuccessKeepsFrameStage(m, video, world, FramePath(ImagesFolder(Workspace(m)), n));
  }

  /** After a successful run the workspace holds exactly the workspace folder,
      the images folder, the transcript and the sampled frames. */
  lemma SuccessWorkspaceContents(m: Tree, video: Video, world: World, p: Path)
    requires Run(m, video, world).0.Ok?
    requires Under(p, Workspace(m))
    ensures var folder := Workspace(m);
      p in Run(m, video, world).1 <==>
        (|| p == folder || p == ImagesFolder(folder) || p == TranscriptPath(folder)
         || (video.stride != 0 &&
               exists n: nat :: n < video.frames && n % video.stride == 0 && p == FramePath(ImagesFolder(folder), n)))
  {
    var folder := Workspace(m);
    WorkspaceIsNew(m);
    SuccessManifest(m, video, world);
    FrameStageContents(m, video, p);
    if p != TranscriptPath(folder) && p != TempAudioPath(folder) {
      SuccessKeepsFrameStage(m, video, world, p);
    }
  }

  /** Outside its workspace a run changes nothing except creating `uploads`
      and creating, overwriting or deleting `chunk_NNN.wav` files in the
      working directory. */
  lemma OutsideWorkspaceUntouched(m: Tree, video: Video, world: World, p: Path)
    requires !Under(p, Workspace(m)) && p != Base
    requires forall i: nat :: p != ChunkPath(i)
    ensures p in Run(m, video, world).1 <==> p in m
    ensures p in m ==> Run(m, video, world).1[p] == m[p]
  {
    if world.allocationFails.Some? {
      AllocationFailureKeepsDirectories(m, video, world, p);
      return;
    }
    FrameStageContents(m, video, p);
    if video.track.Some? {
      var temp := TempAudioPath(Workspace(m));
      var m1 := FrameStage(m, video)[temp := Audio(video.track.value)];
      TranscribeTouchesOnlyChunkFiles(m1, temp, ChunkLength, world.recognize, world.exportFails, p);
    }
  }

  /** An export failure is not covered by the per-chunk cleanup: that chunk's
      file stays in the working directory even after the rollback. */
  lemma ExportFailureLeavesChunkBehind(m: Tree, video: Video, world: World, k: nat)
    requires Run(m, video, world).0 == Err(ChunkExportFailed(k))
    ensures ChunkPath(k) in Run(m, video, world).1
  {
    RunErrorCause(m, video, world);
    WorkspaceIsNew(m);
    var temp := TempAudioPath(Workspace(m));
    var m1 := FrameStage(m, video)[temp := Audio(video.track.value)];
    ExportFailureLeavesChunk(m1, temp, ChunkLength, world.recognize, world.exportFails, k);
  }

  /** `process_video(video.path)`. */
  method ProcessVideo(fs: FileSystem, video: Video, world: World) returns (r: Result<Manifest>)
    modifies fs
    ensures (r, fs.entries) == Run(old(fs.entries), video, world)
  {
    if world.allocationFails == Some(0) {
      // os.makedirs(base_path) raises in get_next_video_folder
      return Err(MakeDirsFailed);
    }
    var folder := GetNextVideoFolder(fs, Base);
    var images, transcriptPath, temp := ImagesFolder(folder), TranscriptPath(folder), TempAudioPath(folder);
    if world.allocationFails.Some? {
      // os.makedirs(images_folder) raises once the first directories are made
      fs.MakeDirs(images[..Min(world.allocationFails.value, 2)]);
      return Err(MakeDirsFailed);
    }
    fs.MakeDirs(images);
    ghost var m2 := fs.entries;

    // try
    var framesDone, cap := ExtractImages(fs, video.frames, images, video.stride);
    if framesDone.Fail? {
      r := Err(framesDone.error);
    } else {
      var audioDone, warned := ExtractAudio(fs, video.path, video.track, temp);
      if audioDone.Fail? {
        r := Err(audioDone.error);
      } else {
        var transcript := AudioToText(fs, temp, ChunkLength, world.recognize, world.exportFails);
        if transcript.Err? {
          r := Err(transcript.error);
        } else if world.transcriptWriteFails {
          r := Err(TranscriptWriteFailed);
        } else {
          fs.Write(transcriptPath, Text(transcript.value));
          var existed := fs.Remove(temp);
          r := if existed then Ok(Manifest(folder, images, transcriptPath)) else Err(FileNotFound);
        }
      }
    }
    assert (r, fs.entries) == Stages(m2, folder, video, world);

    // except
    if r.Err? {
      fs.RemoveTree(folder);
    }
    // finally
    var leftover := fs.Exists(temp);
    if leftover {
      var _ := fs.Remove(temp);
    }
  }
}

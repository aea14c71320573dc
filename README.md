# Video processing pipeline, modelled in Dafny

This project models the core of a video-to-transcript pipeline. A single call
`process_video(path)` does the following:

- It allocates a fresh workspace `uploads/video<N>` and creates its `images` folder.
- It samples one still per 15-second interval into `images/frame_NNNNNN.jpg`.
- It extracts the audio track to `temp_audio.wav`.
- It splits the audio into 60-second chunks and sends each chunk to a speech
  recogniser through a temporary `chunk_NNN.wav` in the working directory.
- It writes the recognised texts, joined by single spaces, to `transcript.txt`.
- On success it returns the manifest of the workspace, its images folder and
  its transcript.
- If a stage inside its `try` raises, it deletes the whole workspace and
  re-raises. An error while creating the workspace comes before that `try` and
  is not rolled back.
- Whenever the `try` is entered, its `finally` removes the temporary audio
  file if it is still there.

The filesystem is a class `Files.FileSystem` whose one field, `entries`, maps
paths to entries. A path is a sequence of components relative to the working
directory. An entry is a directory, an image (identified by its frame index),
an audio file (one sample per millisecond) or a text file. Each operation of
the pipeline is an imperative method on that filesystem:

- `FrameSampler.ExtractImages`
- `AudioExtractor.ExtractAudio`
- `Transcriber.AudioToText`
- `FolderAllocator.GetNextVideoFolder`
- `VideoPipeline.ProcessVideo`

Each method's postcondition ties its result and the new filesystem to a pure
function of the old one: `SampleFrames`, `Transcribe`, `NextFolder` and `Run`.
The pipeline's promises are proved as lemmas about those functions. They
cover unique and ordered frame names, exactly the stride-aligned frames being
written, chunks that concatenate back to the audio, the transcript being the
recognised texts in order, a fresh workspace, full rollback when a stage fails, no
temporary audio surviving a run, and nothing touched outside the workspace
except `uploads` and the `chunk_NNN.wav` files in the working directory. A run
overwrites every `chunk_NNN.wav` whose number it uses and then deletes it,
unless that chunk's export raised, so a file of that name that was already
there before the run is lost.

The decoders and the recogniser are inputs of the model:

- `Video.frames` is how many frames OpenCV decodes.
- `Video.stride` is `int(fps * 15)`.
- `Video.track` is the audio MoviePy writes, or `None` when MoviePy raises.
- `World.recognize` is the answer for chunk `i` with samples `s`: a text,
  `UnknownValueError` or `RequestError`.
- `World.allocationFails` injects a failing `os.makedirs` while the workspace
  is allocated. With `Some(0)`, `os.makedirs("uploads")` raises. With
  `Some(1)`, `os.makedirs` of the images folder raises before creating the
  workspace. With `Some(2)` or more, it raises after creating the workspace
  but before `images`.
- `World.exportFails` is the set of chunks whose `export` raises.
- `World.transcriptWriteFails` says whether writing `transcript.txt` raises.

Where the design notes and the code disagree, the model follows the code:

- The design notes compute the stride as `round(fps × interval)`. The code
  truncates with `int(...)`. The stride is an input, so `Video.stride` stands
  for the truncated value.
- The design notes say every chunk's temporary file is deleted whatever the
  outcome. In the code, `chunk.export` runs before the `try` whose `finally`
  removes the file. So if `export` raises after opening the file, that file
  survives, even after the workspace is rolled back. The model takes that
  case (`ExportFailureLeavesChunkBehind`).
- The design notes call a stride of 0 degenerate. In the code, a stride of 0
  raises `ZeroDivisionError` at the first decoded frame. It writes nothing
  when there is no frame at all.
- The design notes say an allocation error leaves nothing behind and no
  workspace survives a failed run. In the code, `os.makedirs(images_folder)`
  at line 131 runs before the `try`, so it can raise after creating
  `uploads/video<N>`, and that folder is kept. The model takes that case
  (`AllocationFailureKeepsDirectories`, with `allocationFails == Some(d)` for
  `d >= 2`).

## Model

| member | source | states |
|---|---|---|
| Decimal.Value | app/services/video_processor.py:113 | `int(s)` for a string of ASCII digits, leading zeros allowed |
| Decimal.Format | app/services/video_processor.py:42 | `format(n, "0{w}d")`: the decimal digits of `n`, padded on the left with zeros to at least `w` characters; with `w = 1` it is `str(n)` |
| Decimal.LexLess | app/services/video_processor.py:42 | Python's `<` on strings: lexicographic by code point, a proper prefix sorting first |
| Decimal.ValueOfFormat | app/services/video_processor.py:42 | reading a zero-padded decimal back with `int` gives the number that was formatted |
| Decimal.FormatWidth | app/services/video_processor.py:42 | a number below 10^w formats to exactly w digits |
| Decimal.LexLessOfValue | app/services/video_processor.py:42 | for digit strings of equal length, a smaller value is a lexicographically smaller string |
| Decimal.LexLessIrreflexive | app/services/video_processor.py:42 | no name sorts before itself |
| Decimal.LexLessAsymmetric | app/services/video_processor.py:42 | two names never sort before each other |
| Decimal.LexLessPrepend | app/services/video_processor.py:42 | a common prefix such as `frame_` keeps the order of names |
| Decimal.LexLessAppend | app/services/video_processor.py:42 | between equal-length strings, a common suffix such as `.jpg` keeps the order |
| Files.AfterMakeDirs | app/services/video_processor.py:27 | `makedirs(exist_ok=True)` adds every prefix of the path as a directory and keeps every existing entry unchanged |
| Files.MakeDirsExisting | app/services/video_processor.py:27 | creating directories that all exist already changes nothing |
| Files.AfterRemoveTree | app/services/video_processor.py:163 | `rmtree` removes exactly the root and everything below it and keeps the rest unchanged |
| Files.FileSystem.MakeDirs | app/services/video_processor.py:109 | the new state is `AfterMakeDirs` of the old one |
| Files.FileSystem.Write | app/services/video_processor.py:145-146 | the file at the path is created or overwritten and nothing else changes |
| Files.FileSystem.Remove | app/services/video_processor.py:150 | reports whether the file existed (false where Python raises `FileNotFoundError`) and removes exactly that path |
| Files.FileSystem.RemoveTree | app/services/video_processor.py:163 | the new state is `AfterRemoveTree` of the old one |
| Files.FileSystem.Exists | app/services/video_processor.py:168 | true iff the path is present |
| Files.FileSystem.ListDir | app/services/video_processor.py:110 | lists every child name of the directory exactly once and nothing else |
| FrameSampler.FrameNameDecodes | app/services/video_processor.py:42 | a frame name is `frame_`, at least six digits that read back as the frame index, and `.jpg` |
| FrameSampler.FrameNameInjective | app/services/video_processor.py:42 | distinct frames get distinct file names |
| FrameSampler.FramePathInjective | app/services/video_processor.py:42 | distinct frames get distinct paths in the images folder |
| FrameSampler.FrameNameWidth | app/services/video_processor.py:42 | below one million frames every name is exactly 16 characters |
| FrameSampler.FrameNameOrder | app/services/video_processor.py:42 | below one million frames, frame a comes before frame b iff its name sorts before b's name |
| FrameSampler.FrameNameOrdered | app/services/video_processor.py:42 | a lower frame index below 10^6 gives a name that sorts earlier |
| FrameSampler.Written | app/services/video_processor.py:36-46 | the indices the loop saves, in the order it saves them: each decoded `n` with `n % frame_interval == 0` |
| FrameSampler.WrittenExactly | app/services/video_processor.py:36-46 | a frame is written iff it was decoded and the stride divides its index |
| FrameSampler.WrittenIncreasing | app/services/video_processor.py:36-46 | frames are written in strictly increasing index order |
| FrameSampler.WrittenClosedForm | app/services/video_processor.py:31-46 | with a positive stride k the frames written are 0, k, 2k, ..., `ceil(count / k)` of them |
| FrameSampler.FirstFrameWritten | app/services/video_processor.py:41 | with a positive stride and at least one frame, frame 0 is written first |
| FrameSampler.NinetySecondsAtThirtyFps | app/services/video_processor.py:31-46 | 2700 frames at stride 450 yield the six frames 0, 450, ..., 2250 |
| FrameSampler.WriteFramesHolds | app/services/video_processor.py:41-43 | every written index has its own image under its own name |
| FrameSampler.WriteFramesElsewhere | app/services/video_processor.py:41-43 | writing frames changes no other path |
| FrameSampler.WriteFramesStep | app/services/video_processor.py:41-45 | decoding one more frame writes it exactly when the stride divides its index |
| FrameSampler.SampleFrames | app/services/video_processor.py:26-46 | the filesystem after `extract_images`: the images folder is created, then one image per saved index; with a zero stride nothing is written |
| FrameSampler.SampleFramesWrites | app/services/video_processor.py:26-46 | every decoded stride-aligned frame is present as its own image afterwards |
| FrameSampler.SampleFramesOnly | app/services/video_processor.py:26-46 | a new path other than the folders on the way to the images folder is present afterwards only as a sampled frame |
| FrameSampler.VideoCapture.Read | app/services/video_processor.py:37-39 | succeeds iff the capture is open and frames remain, and then advances by one frame |
| FrameSampler.VideoCapture.Release | app/services/video_processor.py:47-48 | the capture is released and its position is kept |
| FrameSampler.ExtractImages | app/services/video_processor.py:17-48 | the capture is released whether the loop ends or raises; `ZeroDivisionError` iff the stride is 0 and a frame was decoded; the new filesystem is `SampleFrames` of the old one |
| AudioExtractor.RFind | app/services/video_processor.py:59 | the last index holding the character, or -1 when there is none |
| AudioExtractor.Extension | app/services/video_processor.py:59 | the extension is a suffix of the path, and is either empty or a dot followed by neither dots nor separators; `ExtensionOfName` and `NoExtension` say which |
| AudioExtractor.RFindIs | app/services/video_processor.py:59 | an index holding the character, with none of it after, is what `rfind` returns |
| AudioExtractor.ExtensionOfName | app/services/video_processor.py:59 | a last component `stem + ext`, where `stem` has a character other than a dot and `ext` is a dot followed by no dot, has extension `ext`, with or without a directory |
| AudioExtractor.NoExtension | app/services/video_processor.py:59 | a last component in which no dot follows its first character other than a dot has no extension |
| AudioExtractor.MkvNotWarned | app/services/video_processor.py:59-61 | a file `<stem>.mkv`, in any letter case, in any directory or none, and with dots allowed in the stem, draws no warning |
| AudioExtractor.BareNameNotWarned | app/services/video_processor.py:59-61 | `clip.mkv`, with no directory, draws no warning |
| AudioExtractor.DottedStemNotWarned | app/services/video_processor.py:59-61 | `my.clip.MKV` draws no warning |
| AudioExtractor.HiddenFileWarned | app/services/video_processor.py:59-61 | a hidden file named `.mkv` has no extension and draws the warning |
| AudioExtractor.ExtractAudio | app/services/video_processor.py:58-68 | warns iff the extension is not `.mkv` in any case; the outcome does not depend on that check; writes the track, or re-raises and writes nothing |
| Transcriber.Chunks | app/services/video_processor.py:83 | the slices `[i, i+C)` for `i` in `range(0, L, C)`, the last one cut at `L` |
| Transcriber.ChunkList | app/services/video_processor.py:83 | the comprehension for any non-zero step: a negative step gives no chunks |
| Transcriber.ChunksUnfold | app/services/video_processor.py:83 | the chunk list is empty for empty audio, the whole audio when it fits one chunk, and otherwise the first C milliseconds followed by the chunks of the rest |
| Transcriber.ChunksConcat | app/services/video_processor.py:83 | concatenating the chunks gives back the audio |
| Transcriber.ChunkSizes | app/services/video_processor.py:83 | `ceil(L / C)` chunks, all non-empty; each but the last is exactly C long |
| Transcriber.LastChunkLength | app/services/video_processor.py:83 | the last chunk is `L mod C` long, or C when C divides L |
| Transcriber.Texts | app/services/video_processor.py:90-98 | the recognised texts in chunk order; a chunk answered by `UnknownValueError` or `RequestError` contributes nothing |
| Transcriber.Join | app/services/video_processor.py:102 | `" ".join(ts)`: the texts separated by single spaces |
| Transcriber.TextsAppend | app/services/video_processor.py:86-98 | the texts of consecutive runs of chunks are consecutive |
| Transcriber.SkipsFailedChunk | app/services/video_processor.py:95-98 | an unintelligible chunk or a failed request contributes nothing to the texts |
| Transcriber.NoTextWhenAllFail | app/services/video_processor.py:95-102 | when no chunk is recognised the transcript is empty |
| Transcriber.JoinAppend | app/services/video_processor.py:102 | one more text adds exactly one separating space |
| Transcriber.JoinLength | app/services/video_processor.py:102 | the transcript's length is the texts' lengths plus one space between each two texts |
| Transcriber.SplitJoin | app/services/video_processor.py:102 | splitting the transcript at single spaces gives back the texts when no text contains a space |
| Transcriber.ChunkPathIsChunkFile | app/services/video_processor.py:87 | every chunk's temporary file is a `chunk_` file in the working directory |
| Transcriber.ChunkPathInjective | app/services/video_processor.py:87 | distinct chunks use distinct temporary files |
| Transcriber.FirstIn | app/services/video_processor.py:86-88 | the first chunk in the range whose export fails, or the end of the range |
| Transcriber.Transcribe | app/services/video_processor.py:81-102 | the result and filesystem after `audio_to_text`: a load error if the audio file is missing or is not audio, an error for chunk length 0, the first failing export leaving its chunk file, otherwise the joined texts with every chunk file removed |
| Transcriber.TranscribeTouchesOnlyChunkFiles | app/services/video_processor.py:86-100 | transcription changes no path other than the `chunk_NNN.wav` files it uses |
| Transcriber.TranscribeCleansUp | app/services/video_processor.py:99-100 | after a transcription that returns, no chunk file of this run remains and no other path has appeared or gone |
| Transcriber.TranscriptOfChunks | app/services/video_processor.py:81-102 | with no export failure, the result is the recognised texts of the chunks, in order, joined by single spaces |
| Transcriber.ExportFailureLeavesChunk | app/services/video_processor.py:86-88 | an export failure aborts at the first failing chunk; that chunk's file remains and the earlier ones are gone |
| Transcriber.AudioToText | app/services/video_processor.py:70-102 | the result and the new filesystem are `Transcribe` of the old filesystem |
| FolderAllocator.IsVideoFolder | app/services/video_processor.py:110 | `f.startswith("video") and f[5:].isdigit()`, with ASCII digits |
| FolderAllocator.VideoFolders | app/services/video_processor.py:110 | keeps exactly the listed names `video<digits>` |
| FolderAllocator.MaxNumber | app/services/video_processor.py:113 | the largest folder number present |
| FolderAllocator.NumberOfName | app/services/video_processor.py:114 | `video<str(n)>` is a video folder whose number reads back as n |
| FolderAllocator.NextVideoName | app/services/video_processor.py:110-114 | `video1` when no name matches, otherwise `video` followed by one more than the largest matching number |
| FolderAllocator.NextVideoNameIsNext | app/services/video_processor.py:110-114 | the new name is a video folder numbered above every existing one, with number 1 or one past an existing number |
| FolderAllocator.NextVideoNameFresh | app/services/video_processor.py:110-114 | the new name is never one already listed |
| FolderAllocator.NextVideoNameOrderFree | app/services/video_processor.py:110 | the new name does not depend on the order `listdir` returns |
| FolderAllocator.NextAfterSeven | app/services/video_processor.py:110-114 | `video1, video3, video7` gives `video8` |
| FolderAllocator.NextInEmpty | app/services/video_processor.py:111-112 | an empty base directory gives `video1` |
| FolderAllocator.LeadingZeroFolder | app/services/video_processor.py:110-113 | `video02` matches and is numbered 2 |
| FolderAllocator.OnlyLeadingZeroMatches | app/services/video_processor.py:110 | of `video`, `video2a`, `notes.txt` and `video02`, only `video02` matches |
| FolderAllocator.NextIgnoresOthers | app/services/video_processor.py:110-114 | non-matching names are ignored, and `video02` counts as number 2 |
| FolderAllocator.ListingOf | app/services/video_processor.py:110 | a listing holding exactly the given names |
| FolderAllocator.NextFolderFresh | app/services/video_processor.py:109-114 | nothing exists at or below the folder chosen |
| FolderAllocator.GetNextVideoFolder | app/services/video_processor.py:105-114 | creates the base and returns `NextFolder` of the new state |
| VideoPipeline.Run | app/services/video_processor.py:126-169 | the result and filesystem after `process_video`: an allocation error before the `try`, otherwise the stages in order, with rollback and re-raise when one fails and the temporary audio removed on every path through the `try` |
| VideoPipeline.WorkspaceIsNew | app/services/video_processor.py:126 | the workspace is a `video<N>` folder directly under `uploads`, and nothing existed at or below it |
| VideoPipeline.AncestorsOfImages | app/services/video_processor.py:131 | creating the images folder creates `uploads`, the workspace and the images folder, and nothing else |
| VideoPipeline.PreparedWorkspace | app/services/video_processor.py:126-131 | before the `try`, the workspace holds exactly itself and its images folder, and nothing outside it has changed except `uploads` |
| VideoPipeline.WorkspaceEntriesDistinct | app/services/video_processor.py:127-129 | the images folder, the transcript and the temporary audio are three different paths |
| VideoPipeline.AllocationFailureKeepsDirectories | app/services/video_processor.py:126-131 | an error while allocating the workspace is not rolled back: `uploads` and the workspace stay once created, the images folder does not exist, and nothing else changes |
| VideoPipeline.TempAudioRemoved | app/services/video_processor.py:149-169 | the temporary audio file never survives a run, and it is already gone before the `finally` clause |
| VideoPipeline.FailureRollsBack | app/services/video_processor.py:159-164 | after a run in which a stage inside the `try` raised, nothing exists at or below the workspace |
| VideoPipeline.RunErrorCause | app/services/video_processor.py:126-164 | classifies the error raised: the `makedirs` error iff the allocation fails; otherwise `ZeroDivisionError` iff the stride is 0 and a frame is decoded; otherwise the audio error iff there is no track; then the first failing chunk export; then the transcript write; otherwise success |
| VideoPipeline.FrameStageFrame | app/services/video_processor.py:136 | after image extraction, frame n is present as its own image iff it was decoded and the stride divides it |
| VideoPipeline.FrameStageContents | app/services/video_processor.py:126-136 | after image extraction, the workspace holds exactly itself, its images folder and the sampled frames |
| VideoPipeline.SuccessKeepsFrameStage | app/services/video_processor.py:139-151 | a successful run keeps what image extraction left at every path other than the transcript, the temporary audio and the `chunk_NNN.wav` files |
| VideoPipeline.SuccessState | app/services/video_processor.py:142-157 | on success, the final state is the transcription's state with the transcript written and the temporary audio removed |
| VideoPipeline.SuccessFolders | app/services/video_processor.py:126-157 | after a successful run the workspace and its images folder exist as directories |
| VideoPipeline.SuccessTranscript | app/services/video_processor.py:142-146 | after a successful run the transcript holds the recognised chunk texts joined by single spaces |
| VideoPipeline.SuccessManifest | app/services/video_processor.py:145-157 | on success, the manifest names the workspace, its images folder and its transcript, which all exist; the transcript holds the joined recognised texts |
| VideoPipeline.SuccessFrames | app/services/video_processor.py:136-157 | after a successful run, frame n is in the images folder as its own image iff it was decoded and the stride divides it |
| VideoPipeline.SuccessWorkspaceContents | app/services/video_processor.py:126-157 | after a successful run, the workspace holds exactly itself, its images folder, its transcript and the sampled frames |
| VideoPipeline.OutsideWorkspaceUntouched | app/services/video_processor.py:116-169 | outside its workspace, a run changes nothing except creating `uploads` and creating, overwriting or deleting `chunk_NNN.wav` files in the working directory |
| VideoPipeline.ExportFailureLeavesChunkBehind | app/services/video_processor.py:86-88 | when a chunk's export raises, that chunk's file survives the rollback |
| VideoPipeline.ProcessVideo | app/services/video_processor.py:116-169 | the result and the new filesystem are `Run` of the old filesystem |

## Left out

- Decoding and I/O are inputs, not modelled: OpenCV's frame decoding and `fps`, MoviePy's audio demuxing, pydub's loading and WAV encoding, and the Google recogniser (a function of chunk number and samples).
- Image content is not modelled. An image is identified by its frame index, and audio by its samples at one per millisecond, which is pydub's slicing unit.
- Floating-point `fps * interval` is not modelled. The stride is the integer input `Video.stride`.
- Logging, `traceback` output and the `tqdm` progress bars have no effect on the state and are left out.
- The `__main__` block (lines 171-182), the HTTP endpoint and the front end are not part of this model.
- Concurrent runs racing on the folder number are left out, because the model is single-threaded.
- FolderAllocator.IsVideoFolder: `str.isdigit` is modelled over ASCII digits only. Unicode digits such as superscripts pass `isdigit` in Python and then make `int` raise; the model does not capture that.
- AudioExtractor.Extension: models `os.path.splitext` with the POSIX separator only. The Windows `ntpath` rules, where `\` and drive letters also separate, are left out.
- AudioExtractor.ToLower: lower-cases ASCII letters only. Unicode case mapping is left out.
- Filesystem errors other than the injected ones are not modelled. These include a failing `makedirs` in `extract_images` (the folder already exists there), `os.remove` failing on an existing file, and a component being a file where a directory is expected. Allocation errors are injected through `World.allocationFails`, export errors through `World.exportFails`, and transcript write errors through `World.transcriptWriteFails`.
- Paths are compared exactly, as on a case-sensitive filesystem. On a case-insensitive one, the code ignores a folder `VIDEO1` (`startswith('video')` is case-sensitive) and picks `video1`, which is that same folder. There `WorkspaceIsNew` and `NextFolderFresh` do not hold, and a failed run's `rmtree` deletes the existing folder.
- Files.AfterRemoveTree: `rmtree(..., ignore_errors=True)` is modelled as always succeeding. The code hides any failure to delete, so on a real system the rollback that `FailureRollsBack` states is best-effort.
- A partial `write_audiofile` after an error is not modelled. A raising extraction writes no audio file. Either way the rollback removes the workspace.
- Transcriber.Transcribe: when `export` raises, the chunk's file is modelled as fully written (the worst case for cleanup). Whether the file exists at all in that case depends on pydub.
- Recogniser exceptions other than `UnknownValueError` and `RequestError`, and failures of `sr.AudioFile` or `record`, are not modelled. The recogniser answers with text or one of those two errors.
- The transcript is modelled as the Python string written. The UTF-8 encoding of the file is left out.

/** The exceptions the pipeline can raise, and the wrappers that carry them. */
module Outcomes {

  /** The exceptions that can escape a stage of the pipeline. */
  datatype Error =
    | MakeDirsFailed                // `os.makedirs` raised while allocating the workspace
    | ZeroDivision                  // `frame_count % frame_interval` with a zero stride
    | AudioExtractionFailed         // the audio track could not be demuxed or written
    | AudioLoadFailed               // the audio file could not be loaded for transcription
    | ChunkLengthZero               // `range(0, len(audio), 0)` raises ValueError
    | ChunkExportFailed(chunk: nat) // `chunk.export` raised for this chunk index
    | TranscriptWriteFailed         // writing transcript.txt raised
    | FileNotFound                  // `os.remove` of a file that is absent

  datatype Option<T> = None | Some(value: T)

  /** A stage that returns a value or raises. */
  datatype Result<T> = Ok(value: T) | Err(error: Error)

  /** A stage that returns nothing or raises. */
  datatype Outcome = Pass | Fail(error: Error)
}

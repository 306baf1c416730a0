/** The records the job service and the journal exchange: the job states,
    job ids, progress reports and the two kinds of job. */
module Jobs {
  import opened Common
  import Clock
  import Ranges

  datatype JobState = Queued | Running | Completed | Canceled | Failed

  /** A job id. The program draws a fresh `Guid`; the model counts. */
  datatype JobId = JobId(value: nat)

  /** One progress report: percent done, time processed, total time, state
      and a phase text. */
  datatype JobProgress = JobProgress(percent: real, processed: Clock.TimeSpan, total: Clock.TimeSpan,
                                     state: JobState, phase: string)

  /** What a job asks for. The range of a job record can be null, and the
      file is the local path of the input URI. `OtherJob` stands for any
      other implementation of the job model interface. */
  datatype JobModel =
    | CutVideoJob(range: Option<Ranges.MediaRange>, filePath: string, outputFilePath: string)
    | GenerateGifJob(range: Option<Ranges.MediaRange>, filePath: string, outputFilePath: string)
    | OtherJob
}

/** The job lifecycle enumerations of `job_status_enums.py`. */
module JobStatusEnums {
  import opened Wrappers

  /** `JobStatus`. */
  datatype JobStatus = Created | Uploaded | Processing | Succeeded | Failed | Expired

  /** `JobStep`. */
  datatype JobStep = Validate | ConvertPages | ProcessOcr | RenderDocx | Done

  /** The string a status is stored as (`JobStatus.X.value`). */
  function StatusValue(s: JobStatus): string {
    match s
    case Created => "CREATED"
    case Uploaded => "UPLOADED"
    case Processing => "PROCESSING"
    case Succeeded => "SUCCEEDED"
    case Failed => "FAILED"
    case Expired => "EXPIRED"
  }

  /** `JobStatus(v)`: the status stored as `v`, if any. */
  function ParseStatus(v: string): (r: Option<JobStatus>)
    ensures r.Some? ==> StatusValue(r.value) == v
  {
    if v == "CREATED" then Some(Created)
    else if v == "UPLOADED" then Some(Uploaded)
    else if v == "PROCESSING" then Some(Processing)
    else if v == "SUCCEEDED" then Some(Succeeded)
    else if v == "FAILED" then Some(Failed)
    else if v == "EXPIRED" then Some(Expired)
    else None
  }

  /** The string a step is stored as (`JobStep.X.value`). */
  function StepValue(s: JobStep): string {
    match s
    case Validate => "VALIDATE"
    case ConvertPages => "CONVERT_PAGES"
    case ProcessOcr => "PROCESS_OCR"
    case RenderDocx => "RENDER_DOCX"
    case Done => "DONE"
  }

  /** `JobStep(v)`: the step stored as `v`, if any. */
  function ParseStep(v: string): (r: Option<JobStep>)
    ensures r.Some? ==> StepValue(r.value) == v
  {
    if v == "VALIDATE" then Some(Validate)
    else if v == "CONVERT_PAGES" then Some(ConvertPages)
    else if v == "PROCESS_OCR" then Some(ProcessOcr)
    else if v == "RENDER_DOCX" then Some(RenderDocx)
    else if v == "DONE" then Some(Done)
    else None
  }

  /** Every status reads back from its stored string, so the strings are distinct. */
  lemma StatusRoundTrip(s: JobStatus)
    ensures ParseStatus(StatusValue(s)) == Some(s)
  {
  }

  /** Every step reads back from its stored string, so the strings are distinct. */
  lemma StepRoundTrip(s: JobStep)
    ensures ParseStep(StepValue(s)) == Some(s)
  {
  }
}

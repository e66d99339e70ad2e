/**
 * The pure parts of `main` (main.go:722-853): the required-setting checks,
 * the job built from the template, the attachment named after the source
 * file, and the fields handed to the reconciler.
 */
module Orchestrator {
  import opened Wrappers
  import opened Strings
  import opened Hosts
  import opened CustomFields
  import opened Reconciler
  import opened ReconcilerProperties

  /** The already-parsed `job_template` section of the configuration file. */
  datatype JobTemplateConfiguration = JobTemplateConfiguration(
    Name: string,
    Source: string,
    SourceLanguage: string,
    TargetLanguages: seq<string>,
    CustomFields: seq<FieldConfiguration>)

  /** The already-parsed configuration file. */
  datatype Configuration = Configuration(ProjectId: int, JobTemplate: JobTemplateConfiguration)

  /** A job as it is sent to and returned by the API. */
  datatype Job = Job(
    Id: int,
    Name: string,
    ProjectId: int,
    Description: string,
    SourceLanguageCode: string,
    TargetLanguageCodes: seq<string>)

  /** A file attached to a job; the local path is never part of the upload's metadata. */
  datatype Attachment = Attachment(JobId: int, Name: string, FileType: string, AttachmentFilePath: string)

  const ClientIdVariable: string := "moravia_client_id"
  const ClientSecretVariable: string := "moravia_client_secret"
  const ServiceAccountVariable: string := "moravia_service_account"
  const ConfigVariable: string := "moravia_config"

  /** The configuration file to read: the variable, or "moravia.yml" (main.go:723). */
  function ConfigFilePath(env: Env): (path: string)
    ensures path != ""
    ensures ConfigVariable in env && env[ConfigVariable] != "" ==> path == env[ConfigVariable]
    ensures Unset(env, ConfigVariable) ==> path == "moravia.yml"
  {
    Getenv(env, ConfigVariable, "moravia.yml")
  }

  // ---------------------------------------------------------------------------
  // Validation of the required settings (main.go:728-762)
  // ---------------------------------------------------------------------------

  /** The checks of `main`, in the order it makes them. */
  datatype ValidationError =
    | MissingClientId
    | MissingClientSecret
    | MissingServiceAccount
    | MissingProjectId
    | MissingSource
    | MissingSourceLanguage

  /** The setting a failed check names. */
  function Setting(error: ValidationError): string
  {
    match error
    case MissingClientId => "Client ID"
    case MissingClientSecret => "Client secret"
    case MissingServiceAccount => "Service account"
    case MissingProjectId => "Project ID"
    case MissingSource => "Source"
    case MissingSourceLanguage => "Source language"
  }

  /** What follows the setting's name: the argument's own newline, then the one `fmt.Println` adds. */
  const RequiredSuffix: string := " is required\n\n"

  /**
   * The text printed before exiting with status 1 (main.go:733-760): the
   * setting's name and " is required", then two newlines, one in the
   * argument and one added by `fmt.Println`.
   */
  function Message(error: ValidationError): (text: string)
    ensures |text| == |Setting(error)| + |RequiredSuffix|
    ensures text[..|Setting(error)|] == Setting(error)
    ensures text[|Setting(error)|..] == " is required\n\n"
  {
    Setting(error) + RequiredSuffix
  }

  /** Each failed check prints a text of its own, so the output tells which check failed. */
  lemma MessageInjective(e: ValidationError, e': ValidationError)
    requires Message(e) == Message(e')
    ensures e == e'
  {
  }

  /** The position of a check in the order of `main`. */
  function Rank(error: ValidationError): nat
  {
    match error
    case MissingClientId => 0
    case MissingClientSecret => 1
    case MissingServiceAccount => 2
    case MissingProjectId => 3
    case MissingSource => 4
    case MissingSourceLanguage => 5
  }

  /** A variable counts as missing when it is unset or empty. */
  predicate Unset(env: Env, key: string)
  {
    key !in env || env[key] == ""
  }

  /** Whether the setting a check is about is missing. */
  predicate Violates(env: Env, config: Configuration, error: ValidationError)
  {
    match error
    case MissingClientId => Unset(env, ClientIdVariable)
    case MissingClientSecret => Unset(env, ClientSecretVariable)
    case MissingServiceAccount => Unset(env, ServiceAccountVariable)
    case MissingProjectId => config.ProjectId == 0
    case MissingSource => config.JobTemplate.Source == ""
    case MissingSourceLanguage => config.JobTemplate.SourceLanguage == ""
  }

  /**
   * The required-setting checks of `main`: the first failing one, in the
   * fixed order, is reported; all must hold to pass.
   */
  function Validate(env: Env, config: Configuration): (result: Outcome<ValidationError>)
    ensures result.Fail? ==>
      && Violates(env, config, result.error)
      && forall e :: Rank(e) < Rank(result.error) ==> !Violates(env, config, e)
    ensures result.Pass? <==> forall e :: !Violates(env, config, e)
  {
    if Getenv(env, ClientIdVariable, "") == "" then Fail(MissingClientId)
    else if Getenv(env, ClientSecretVariable, "") == "" then Fail(MissingClientSecret)
    else if Getenv(env, ServiceAccountVariable, "") == "" then Fail(MissingServiceAccount)
    else if config.ProjectId == 0 then Fail(MissingProjectId)
    else if config.JobTemplate.Source == "" then Fail(MissingSource)
    else if config.JobTemplate.SourceLanguage == "" then Fail(MissingSourceLanguage)
    else Pass
  }

  // ---------------------------------------------------------------------------
  // The job (main.go:788-796)
  // ---------------------------------------------------------------------------

  /** The run date as `time.Now().Format("20060102")` writes it: eight digits. */
  type DateStamp = s: string | |s| == 8 && AllDigits(s) witness "20240101"

  /** The job's name: the date, a spaced dash, then the template name. */
  function JobName(date: DateStamp, templateName: string): (name: string)
    ensures |name| == 11 + |templateName|
    ensures name[..8] == date && name[8..11] == " - " && name[11..] == templateName
  {
    date + " - " + templateName
  }

  /**
   * The job `main` asks the API to create: no id yet (the server assigns
   * it), no description, the dated template name, and the project and
   * languages copied from the configuration.
   */
  function BuildJob(date: DateStamp, config: Configuration): (job: Job)
    ensures job.Id == 0 && job.Description == ""
    ensures |job.Name| == 11 + |config.JobTemplate.Name|
    ensures job.Name[..8] == date && job.Name[8..11] == " - " && job.Name[11..] == config.JobTemplate.Name
    ensures job.ProjectId == config.ProjectId
    ensures job.SourceLanguageCode == config.JobTemplate.SourceLanguage
    ensures job.TargetLanguageCodes == config.JobTemplate.TargetLanguages
  {
    Job(0, JobName(date, config.JobTemplate.Name), config.ProjectId, "",
        config.JobTemplate.SourceLanguage, config.JobTemplate.TargetLanguages)
  }

  /** The job's name gives back the date and the template name it was built from. */
  lemma JobNameInjective(date: DateStamp, config: Configuration, date': DateStamp, config': Configuration)
    requires BuildJob(date, config).Name == BuildJob(date', config').Name
    ensures date == date' && config.JobTemplate.Name == config'.JobTemplate.Name
  {
  }

  // ---------------------------------------------------------------------------
  // The attachment (main.go:826-832)
  // ---------------------------------------------------------------------------

  const PathSeparator: char := '/'

  /**
   * `filepath.Split` on a '/'-separated path: the directory up to and
   * including the last separator, and the file name after it.
   */
  function SplitPath(path: string): (parts: (string, string))
    ensures parts.0 + parts.1 == path
    ensures PathSeparator !in parts.1
    ensures parts.0 == "" || parts.0[|parts.0| - 1] == PathSeparator
    decreases |path|
  {
    if |path| == 0 then ("", "")
    else if path[|path| - 1] == PathSeparator then (path, "")
    else
      var (dir, file) := SplitPath(path[..|path| - 1]);
      assert path == dir + file + [path[|path| - 1]];
      (dir, file + [path[|path| - 1]])
  }

  /** The source file attached to the job, named after its last path component. */
  function BuildAttachment(jobId: int, source: string): (attachment: Attachment)
    ensures attachment.JobId == jobId && attachment.FileType == "Source"
    ensures attachment.AttachmentFilePath == source
    ensures PathSeparator !in attachment.Name
    ensures |attachment.Name| <= |source| && source[|source| - |attachment.Name|..] == attachment.Name
    ensures |attachment.Name| < |source| ==> source[|source| - |attachment.Name| - 1] == PathSeparator
  {
    var (dir, file) := SplitPath(source);
    assert source[|dir|..] == file;
    Attachment(jobId, file, "Source", source)
  }

  // ---------------------------------------------------------------------------
  // Reconciling the fields of the created job (main.go:804-824)
  // ---------------------------------------------------------------------------

  /**
   * The fields `main` builds all belong to the created job, so a pass lists
   * that job first and exactly once, and lists no other job.
   */
  lemma CreatedJobListedOnce(snapshot: Snapshot, configs: seq<FieldConfiguration>, jobId: int)
    requires |configs| >= 1 && jobId in snapshot
    ensures var outcome := Reconcile(snapshot, BuildCustomFields(configs, jobId));
      && outcome.Completed?
      && outcome.trace[0] == List(jobId)
      && multiset(outcome.trace)[List(jobId)] == 1
      && forall job :: job != jobId ==> multiset(outcome.trace)[List(job)] == 0
  {
    var fields := BuildCustomFields(configs, jobId);
    assert AllListable(snapshot, fields);
    ReconcileCompletesIffListable(snapshot, fields);
    ListsEachJobOnce(snapshot, fields);
    ListPrecedesFirstField(snapshot, fields);
    assert JobsOf(fields) == {jobId} by {
      assert fields[0].HandoffId == jobId;
    }
  }

  // ---------------------------------------------------------------------------
  // An example run
  // ---------------------------------------------------------------------------

  const DomainField: FieldConfiguration := FieldConfiguration("", "Domain", Choices, ["Legal", "Medical"], false, ["Legal"])

  const ExampleConfiguration: Configuration :=
    Configuration(42, JobTemplateConfiguration("Automation job", "en.xliff", "en", ["de", "nl"], [DomainField]))

  /** With the credentials set, the example configuration passes validation. */
  lemma ExampleValidates(env: Env)
    requires !Unset(env, ClientIdVariable) && !Unset(env, ClientSecretVariable) && !Unset(env, ServiceAccountVariable)
    ensures Validate(env, ExampleConfiguration) == Pass
  {
  }

  /** The example job is named "<date> - Automation job" and belongs to project 42. */
  lemma ExampleJob(date: DateStamp)
    ensures BuildJob(date, ExampleConfiguration).Name == date + " - Automation job"
    ensures BuildJob(date, ExampleConfiguration).ProjectId == 42
  {
    assert date + " - " + "Automation job" == date + " - Automation job";
  }

  /** The example's source file is attached as "en.xliff". */
  lemma ExampleAttachment(jobId: int)
    ensures BuildAttachment(jobId, "en.xliff").Name == "en.xliff"
  {
    SplitPathWithoutSeparator("en.xliff");
  }

  /** A path without a separator is all file name. */
  lemma SplitPathWithoutSeparator(path: string)
    requires PathSeparator !in path
    ensures SplitPath(path) == ("", path)
  {
    var (dir, file) := SplitPath(path);
    assert dir + file == file;
  }

  /** The one field the example builds for a created job. */
  function ExampleDomain(jobId: int): JobCustomField
  {
    JobCustomField(0, "Legal,Medical", Choices, "Domain", "", jobId, PermissionEdit, false, "Domain", PermissionEdit, 0, "Legal")
  }

  lemma ExampleFields(jobId: int)
    ensures BuildCustomFields(ExampleConfiguration.JobTemplate.CustomFields, jobId) == [ExampleDomain(jobId)]
  {
    JoinExamples();
    assert Join(["Legal", "Medical"], [Comma]) == "Legal,Medical" by {
      assert ["Legal", "Medical"][1..] == ["Medical"];
    }
    assert Join(["Legal"], [Comma]) == "Legal";
    var fields := BuildCustomFields(ExampleConfiguration.JobTemplate.CustomFields, jobId);
    assert |fields| == 1 && BuiltFrom(fields[0], DomainField, jobId);
  }

  /**
   * For a created job whose listing is empty, reconciling the example's
   * fields lists that job once and creates "Domain" with value "Legal".
   */
  lemma ExampleReconcile(jobId: int)
    ensures Reconcile(map[jobId := []], BuildCustomFields(ExampleConfiguration.JobTemplate.CustomFields, jobId))
      == Completed([List(jobId), Create(ExampleDomain(jobId))])
  {
    ExampleFields(jobId);
    var fields := [ExampleDomain(jobId)];
    var snapshot: Snapshot := map[jobId := []];
    assert IndexByName([]) == map[];
    assert fields[1..] == [];
    assert ReconcileFrom(snapshot, map[jobId := map[]], []) == Completed([]);
  }
}

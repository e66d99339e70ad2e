# Moravia job-creation step, modelled in Dafny

This project models the core of a CI step that creates a localisation job on
the Moravia (Symfonie) API. The step tags the job with custom fields and
reports the job's portal URL. The heart of the step is the custom-field
reconciler `updateJobCustomFields`:

- it walks the desired fields in order;
- it lists each job's existing fields once and caches them by name;
- for each field it either patches the value of the existing field of that
  name or creates the field.

Around it sit small pure builders:

- desired-field construction from the configuration;
- environment lookup with a fallback;
- production/test host selection;
- the request and portal URLs;
- the ordered required-setting checks of `main`;
- the job name;
- the attachment's file name.

HTTP is replaced by three things:

- a **snapshot**, `map<int, seq<JobCustomField>>`, giving what listing each
  job's fields returns. A job missing from the snapshot is a listing that
  fails, which the source treats as fatal (main.go:395-397).
- a set of **undelivered** writes: the updates and creates whose request
  cannot be built or gets no response, a timeout of the 200-second client
  included. The source treats these as fatal too (main.go:432-443,
  473-484).
- a **trace** of the requests the reconciler sends: `List(job)`,
  `Update(fieldId, payload)` and `Create(field)`.

A pass ends as `Completed(trace)`, `ListFailed(trace, job)` or
`WriteFailed(trace, request)`. The status code and body of an update or
create response are only printed or discarded, so they never end a pass, and
the reconciler returns nil whenever it returns (main.go:421). `Reconcile` is
the pass when every update and create gets through. `Run` is the pass as the
source runs it. `RunStopsAtUndelivered` proves that `Run` is `Reconcile` cut
short at its first undelivered write, so every property of a completed
`Reconcile` holds of a completed `Run`.

The environment is a `map<string, string>`, in which an unset variable reads
as "". The run date is an eight-digit parameter. The configuration arrives
already parsed. The job name is `date + " - " + name` (main.go:793).

Modules, one file each:

- `Wrappers` (wrappers.dfy): `Option`, and `Outcome` for checks that pass or
  report one error.
- `Strings` (strings.dfy): `Join` as `strings.Join` does it, and `Itoa` as
  `strconv.Itoa` does it. Each has an independent inverse (`Split`,
  `ParseInt`) and a round-trip lemma.
- `Hosts` (hosts.dfy): `getenv`, prod/test selection, and the URL builders.
  Each builder has a parser partner.
- `CustomFields` (custom_fields.dfy): the API and configuration records and
  the field-building loop of `main`.
- `Reconciler` (reconciler.dfy): the fold with its explicit cache, with and
  without write failures, and the source's loop as a method proved equal to
  the fold. It also gives the HTTP verb and URL of each request.
- `ReconcilerProperties` (reconciler_properties.dfy): what a pass promises.
- `Server` (server.dfy): an assumed model of the vendor's store, used to
  state what a served pass leaves stored and that a second pass creates
  nothing.
- `Orchestrator` (orchestrator.dfy): validation, the job, the attachment,
  how fields feed the reconciler, and an example run.

## Model

| member | source | states |
|---|---|---|
| Hosts.Getenv | main.go:50-56 | The result is the variable's value when it is set and non-empty, and the fallback otherwise. It is empty only when both are empty. |
| Hosts.UseProduction | main.go:58-65 | Production is selected exactly when the flag variable is set to exactly "true". The "false" fallback, an empty value and any other value all select the test hosts. |
| Hosts.PortalURLRoundTrip | main.go:180-187 | Parsing the portal URL gives back the selected environment and the job id. The URL is the host's `/jobs/`, then the decimal id, then `/detail`. |
| Hosts.PortalURLInjective | main.go:180-187 | Two equal portal URLs name the same job in the same environment. |
| Hosts.ListURLRoundTrip | main.go:329 | The listing URL is the custom-field collection, then `?$filter=HandoffId%20eq%20`, then the decimal job id, which parses back to the job id. |
| Hosts.UpdateURLRoundTrip | main.go:431 | The patch URL is the collection followed by the field id in parentheses, and that id parses back. |
| Hosts.RequestsFollowFlag | main.go:58-65 | The listing and patch URLs start with the production API base exactly when production is selected. |
| Hosts.ProductionPortalExample | main.go:183 | Job 473158 on production gives `https://projects.moravia.com/jobs/473158/detail`. |
| Strings.SplitJoin | main.go:814-816 | Splitting at the comma inverts the comma join for any non-empty list of comma-free strings. |
| Strings.ParseItoa | main.go:183 | The decimal text `strconv.Itoa` produces, with a sign for negatives, parses back to the same integer. |
| CustomFields.BuildCustomFields | main.go:806-820 | There is one field per configuration entry, in order. Name and DefinitionKey are the configured name. Both permissions are "Edit". HandoffId is the job id. Choices and value are comma-joined. Group, type and language flag are copied. No id is set. |
| CustomFields.SerialisedListsRoundTrip | main.go:814-816 | An empty value or choice list serialises to "". A non-empty comma-free list is recovered by splitting the serialised text. |
| CustomFields.JoinExamples | main.go:814-816 | `[]` joins to "" and `["a","b"]` joins to "a,b". |
| Reconciler.IndexByName | main.go:400-403 | A name is a key exactly when some listed field has it. Its entry is the last listed field with that name. |
| Reconciler.DecideHandles | main.go:407-418 | If the listing has the name, the result is an Update. It is addressed by the CustomFieldId of the last field with that name, and its payload has no member set except Value, which is the desired value. Otherwise the result is a Create of the desired field unchanged. |
| Reconciler.UpdateJobCustomFields | main.go:383-422 | The source's loop, with a mutable cache, ends at a failed listing or right after an undelivered update or create. It produces the same outcome and trace as the fold `Run`. |
| Reconciler.StopAtUndelivered | main.go:432-443 | An outcome all of whose updates and creates get through is kept as it is. Otherwise the pass ends as a write failure right after the first undelivered update or create, keeping every request before it. The result completes exactly when the outcome did and every write got through. |
| Reconciler.RunStopsAtUndelivered | main.go:383-422 | The pass in which writes can fail equals the pass in which they all get through, cut short at its first undelivered update or create. |
| Reconciler.RequestFor | main.go:424-432 | A listing is a GET whose URL filters by its job id (main.go:329). An update is a PATCH whose URL carries its field id. A create is a POST to the collection (main.go:473). |
| ReconcilerProperties.ReconcileCompletesIffListable | main.go:386-405 | When every update and create gets through, a pass completes exactly when every job's listing succeeds. A failed pass stops at the first field whose job cannot be listed, and its last request is that listing. |
| ReconcilerProperties.RunCompletesIffDelivered | main.go:383-422 | A pass as the source runs it completes exactly when every job can be listed and the update or create prescribed for every field gets through. It then sends exactly what the all-delivered pass sends. |
| ReconcilerProperties.FailedCreateStopsPass | main.go:481-484 | When creating the first of two new fields of a job gets no response, the pass ends right after that create, and the second field is never sent. |
| ReconcilerProperties.ListsEachJobOnce | main.go:386-405 | A completed trace holds exactly one `List(j)` for each distinct job among the desired fields, including a job whose listing is empty, and no other listing. |
| ReconcilerProperties.HandlesEachFieldInOrder | main.go:386-419 | There is exactly one Update or Create per desired field, in input order. Each one is what `Handles` prescribes against that job's listing (the last same-named field is updated, else the field is created). |
| ReconcilerProperties.ListPrecedesFirstField | main.go:386-419 | When every job can be listed, the trace is exactly `ExpectedTrace`: each job's listing comes right before the request for that job's first field. |
| ReconcilerProperties.CreatesAreNotCached | main.go:400-418 | The cache is not updated after a create. Two desired fields of one job with the same name that the listing lacks are both created. |
| Server.PassStoresEveryName | main.go:407-418 | After the requests of a completed pass are applied to the store, every desired field's name exists under its job. |
| Server.PassStoresLastValues | main.go:407-418 | After a completed pass is served by a store whose ids are distinct and below its next id, the value of the last desired field of each job and name is held by a stored field of that name under that job. |
| Server.SecondPassOnlyUpdates | main.go:383-422 | Serving a completed pass and then reconciling the same desired fields again completes with no Create. |
| Orchestrator.ConfigFilePath | main.go:723 | The configuration path is the variable when it is set and non-empty, else "moravia.yml". It is never empty. |
| Orchestrator.Message | main.go:732-762 | The text printed for a failed check is the setting's name, then " is required", then two newlines: the one in the argument and the one `fmt.Println` adds. |
| Orchestrator.MessageInjective | main.go:732-762 | Different failed checks print different texts. |
| Orchestrator.Validate | main.go:728-762 | Checked in order: client id, client secret, service account, project id not 0, source non-empty, source language non-empty. The first failing check is reported and no earlier check fails. The result is Pass exactly when no check fails. |
| Orchestrator.BuildJob | main.go:788-796 | The job has id 0 and an empty description. Its name is the date, " - " and the template name. Project, source language and target languages are copied from the configuration. |
| Orchestrator.JobNameInjective | main.go:793 | Two jobs with the same name were built from the same date and the same template name. |
| Orchestrator.JobName | main.go:788-793 | The job name is the eight-digit date, then " - ", then the template name. |
| Orchestrator.SplitPath | main.go:826 | Directory plus file gives back the path. The file part has no '/'. The directory part is empty or ends in '/'. |
| Orchestrator.BuildAttachment | main.go:826-832 | The attachment belongs to the job, is typed "Source", and keeps the local path. Its name is the path's trailing component after the last '/'. |
| Orchestrator.CreatedJobListedOnce | main.go:804-824 | With at least one configured field and a listable job, the pass completes. Its first request lists the created job, that job is listed once, and no other job is listed. |
| Orchestrator.ExampleReconcile | main.go:804-821 | For the example configuration and a new job with an empty listing, the trace is: list the job, then create "Domain" with value "Legal" and choices "Legal,Medical". |

## Left out

- HTTP traffic is not modelled: `authenticate`, `createJob`, the bodies and
  status printing of the list/patch/post calls, and the multipart `upload`
  and `uploadAttachment`. This is network I/O; the snapshot and the trace
  stand in for it.
- JSON encoding and `omitempty` are not modelled. A value-only patch whose
  value is "" encodes as an empty object; `Server.Apply` nevertheless sets the
  value. This is foreign library behaviour.
- YAML parsing in `readFromFile` is not modelled; the configuration is
  taken already parsed. This is foreign library behaviour.
- `os.Getenv`, `time.Now` and date formatting, and the `exec.Command` envman
  export are not modelled. They are environment, clock and process side
  effects. The environment is a map and the date an eight-digit parameter.
- The `mustOpen` probe of the source file is left out of `Validate`. It is a
  filesystem effect. In the source an unreadable source file is fatal after
  the source check and before the source-language check.
- `log.Fatal` and `os.Exit` are modelled as values: `ListFailed`,
  `WriteFailed` and `Fail(error)`. `Message` gives the text printed for a
  failed check: the argument of `fmt.Println` plus the newline it adds.
- `moraviaLoginURL`, `moraviaJobsURL`, `moraviaJobAttachmentsURL` and
  `moraviaProjectsURL` are not modelled. They serve only the calls above.
- Dead or exploratory code is not modelled: `findJob`, `findProject`,
  `listJobs`, `listProjects`, `listJobCustomFields`, `listJobAttachments`,
  the `example*` functions, the empty `jobFromTemplate` and the commented-out
  date type.
- Go's 64-bit `int` is modelled as an unbounded integer. Ids never take part
  in arithmetic, so wrap-around does not arise.
- SplitPath: models `filepath.Split` with '/' as the only separator, as on
  the Unix hosts the step runs on; Windows separators and volume names are
  not modelled.
- Strings.ParseInt is a partner for `Itoa`, not a model of `strconv.Atoi`:
  it rejects a leading '+' and has no range limit.
- Write failures are modelled per request: an update or create in the
  undelivered set fails whenever it is sent. A pass in which one request
  succeeds and an identical later one fails is not expressible.
- `http.NewRequest` failing is folded into the undelivered writes. With the
  fixed verbs and URLs used here it does not happen.
- Server.PassStoresLastValues: states the stored value only for the last
  desired field of each job and name. Earlier fields of that job and name
  are overwritten by the later update or shadowed by the later create, as in
  the source. When that last value is "" and the listing has the name, the
  real patch body is `{}` because of `omitempty`, so the server keeps the old
  value. The lemma still shows "" stored, because `Server.Apply` ignores the
  JSON encoding. The store itself is an assumed model of the API, not code of
  the step.

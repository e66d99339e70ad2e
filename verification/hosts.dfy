/**
 * Environment lookup and the host and URL builders of the step
 * (main.go:50-65, 84-86, 180-187, 329, 431). Every URL builder has a parser
 * partner that recovers the identifier it embeds.
 */
module Hosts {
  import opened Wrappers
  import opened Strings

  /** The process environment; `os.Getenv` of a key that is not set yields "". */
  type Env = map<string, string>

  const ProductionFlag: string := "moravia_production"

  const ProductionApi: string := "https://projects.moravia.com/Api/V4"
  const TestApi: string := "https://test-projects.moravia.com/Api/V4"
  const ProductionPortalJobs: string := "https://projects.moravia.com/jobs/"
  const TestPortalJobs: string := "https://test-projects.moravia.com/jobs/"
  const DetailSuffix: string := "/detail"
  const ListFilter: string := "?$filter=HandoffId%20eq%20"

  /** The variable's value, or `fallback` when it is unset or empty (main.go:50-56). */
  function Getenv(env: Env, key: string, fallback: string): (r: string)
    ensures key in env && env[key] != "" ==> r == env[key]
    ensures r == fallback || (key in env && r == env[key])
    ensures r == "" <==> fallback == "" && (key !in env || env[key] == "")
  {
    var value := if key in env then env[key] else "";
    if |value| == 0 then fallback else value
  }

  /**
   * Whether the production hosts are used (main.go:59-60, 181-182): the
   * `"false"` fallback can never select production, so only a variable set to
   * exactly `"true"` does.
   */
  function UseProduction(env: Env): (prod: bool)
    ensures prod <==> ProductionFlag in env && env[ProductionFlag] == "true"
  {
    Getenv(env, ProductionFlag, "false") == "true"
  }

  /** The API base of the selected environment (main.go:58-65). */
  function BaseURL(env: Env): string
  {
    if UseProduction(env) then ProductionApi else TestApi
  }

  /** The custom-field collection of the API (main.go:84-86). */
  function JobCustomFieldsURL(env: Env): string
  {
    BaseURL(env) + "/JobCustomFields"
  }

  /** The GET that lists one job's custom fields (main.go:329). */
  function ListJobCustomFieldsForJobURL(env: Env, jobId: int): string
  {
    JobCustomFieldsURL(env) + ListFilter + Itoa(jobId)
  }

  /** The PATCH that updates one custom field (main.go:431). */
  function UpdateJobCustomFieldURL(env: Env, fieldId: int): string
  {
    JobCustomFieldsURL(env) + "(" + Itoa(fieldId) + ")"
  }

  /** The human-facing job page (main.go:180-187). */
  function PortalJobDetailsURL(env: Env, jobId: int): string
  {
    (if UseProduction(env) then ProductionPortalJobs else TestPortalJobs) + Itoa(jobId) + DetailSuffix
  }

  // ---------------------------------------------------------------------------
  // Parsers: the partners of the builders above
  // ---------------------------------------------------------------------------

  /** The integer written between `prefix` and `suffix` in `s`, if `s` has that shape. */
  function Between(s: string, prefix: string, suffix: string): Option<int>
  {
    if |s| >= |prefix| + |suffix| && s[..|prefix|] == prefix && s[|s| - |suffix|..] == suffix
    then ParseInt(s[|prefix|..|s| - |suffix|])
    else None
  }

  lemma BetweenFramed(prefix: string, n: int, suffix: string)
    ensures Between(prefix + Itoa(n) + suffix, prefix, suffix) == Some(n)
  {
    var s := prefix + Itoa(n) + suffix;
    assert s[..|prefix|] == prefix;
    assert s[|s| - |suffix|..] == suffix;
    assert s[|prefix|..|s| - |suffix|] == Itoa(n);
    ParseItoa(n);
  }

  /** Which environment and which job a portal URL points at. */
  function ParsePortalURL(url: string): Option<(bool, int)>
  {
    match Between(url, ProductionPortalJobs, DetailSuffix)
    case Some(id) => Some((true, id))
    case None =>
      match Between(url, TestPortalJobs, DetailSuffix)
      case Some(id) => Some((false, id))
      case None => None
  }

  /** Round trip: the portal URL names the selected environment and the job id. */
  lemma PortalURLRoundTrip(env: Env, jobId: int)
    ensures ParsePortalURL(PortalJobDetailsURL(env, jobId)) == Some((UseProduction(env), jobId))
  {
    var url := PortalJobDetailsURL(env, jobId);
    if UseProduction(env) {
      BetweenFramed(ProductionPortalJobs, jobId, DetailSuffix);
    } else {
      assert url[8] == 't';
      assert ProductionPortalJobs[8] == 'p';
      BetweenFramed(TestPortalJobs, jobId, DetailSuffix);
    }
  }

  /** Distinct jobs, or distinct environments, get distinct portal URLs. */
  lemma PortalURLInjective(env1: Env, id1: int, env2: Env, id2: int)
    requires PortalJobDetailsURL(env1, id1) == PortalJobDetailsURL(env2, id2)
    ensures id1 == id2
    ensures UseProduction(env1) == UseProduction(env2)
  {
    PortalURLRoundTrip(env1, id1);
    PortalURLRoundTrip(env2, id2);
  }

  /** Round trip: the listing URL carries the job id as its `HandoffId` filter. */
  lemma ListURLRoundTrip(env: Env, jobId: int)
    ensures Between(ListJobCustomFieldsForJobURL(env, jobId), JobCustomFieldsURL(env) + ListFilter, "") == Some(jobId)
  {
    assert ListJobCustomFieldsForJobURL(env, jobId) == (JobCustomFieldsURL(env) + ListFilter) + Itoa(jobId) + "";
    BetweenFramed(JobCustomFieldsURL(env) + ListFilter, jobId, "");
  }

  /** Round trip: the update URL addresses the field by its id in parentheses. */
  lemma UpdateURLRoundTrip(env: Env, fieldId: int)
    ensures Between(UpdateJobCustomFieldURL(env, fieldId), JobCustomFieldsURL(env) + "(", ")") == Some(fieldId)
  {
    BetweenFramed(JobCustomFieldsURL(env) + "(", fieldId, ")");
  }

  /** The request URLs go to the production API exactly when the flag selects it. */
  lemma RequestsFollowFlag(env: Env, jobId: int, fieldId: int)
    ensures ListJobCustomFieldsForJobURL(env, jobId)[..|ProductionApi|] == ProductionApi <==> UseProduction(env)
    ensures UpdateJobCustomFieldURL(env, fieldId)[..|ProductionApi|] == ProductionApi <==> UseProduction(env)
  {
    var list := ListJobCustomFieldsForJobURL(env, jobId);
    var update := UpdateJobCustomFieldURL(env, fieldId);
    if UseProduction(env) {
      assert list[..|ProductionApi|] == ProductionApi;
      assert update[..|ProductionApi|] == ProductionApi;
    } else {
      assert list[8] == 't' && update[8] == 't';
      assert ProductionApi[8] == 'p';
    }
  }

  /** An example: job 473158 on production. */
  lemma ProductionPortalExample(env: Env)
    requires ProductionFlag in env && env[ProductionFlag] == "true"
    ensures PortalJobDetailsURL(env, 473158) == "https://projects.moravia.com/jobs/473158/detail"
  {
    DecimalStep(4, 7);
    DecimalStep(47, 3);
    DecimalStep(473, 1);
    DecimalStep(4731, 5);
    DecimalStep(47315, 8);
    assert NatToDecimal(473158) == "473158";
  }

  /** Appending a digit to a number appends its character to the decimal string. */
  lemma DecimalStep(n: nat, d: nat)
    requires 0 < n && d < 10
    ensures NatToDecimal(n * 10 + d) == NatToDecimal(n) + [DigitChar(d)]
  {
    assert (n * 10 + d) / 10 == n;
    assert (n * 10 + d) % 10 == d;
  }
}

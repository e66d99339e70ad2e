/**
 * The custom-field records of the API and of the configuration file, and the
 * construction of the desired fields from the configuration
 * (main.go:96-103, 285-319, 806-820).
 */
module CustomFields {
  import opened Strings

  /** Go's `CustomFieldType` is a plain string type; these are its named values. */
  type CustomFieldType = string
  const Text: CustomFieldType := "Text"
  const Number: CustomFieldType := "Number"
  const DateTime: CustomFieldType := "DateTime"
  const Choices: CustomFieldType := "Choices"
  const ChoicesMultiple: CustomFieldType := "ChoicesMultiple"
  const TextArea: CustomFieldType := "TextArea"
  const Checkbox: CustomFieldType := "Checkbox"

  /** Go's `CustomFieldPermission` is a plain string type; these are its named values. */
  type CustomFieldPermission = string
  const PermissionNone: CustomFieldPermission := "None"
  const PermissionRead: CustomFieldPermission := "Read"
  const PermissionEdit: CustomFieldPermission := "Edit"

  /** A custom field as the API lists, creates and patches it. */
  datatype JobCustomField = JobCustomField(
    CustomFieldId: int,
    DefinitionAdditionalData: string,
    DefinitionFormatter: CustomFieldType,
    DefinitionKey: string,
    Group: string,
    HandoffId: int,
    InternalPermission: CustomFieldPermission,
    IsLanguageSpecific: bool,
    Name: string,
    NonInternalPermission: CustomFieldPermission,
    RequestorId: int,
    Value: string)

  /** The Go zero value of the record: every member empty, zero or false. */
  const ZeroField: JobCustomField := JobCustomField(0, "", "", "", "", 0, "", false, "", "", 0, "")

  /** One `custom_fields` entry of the configuration file. */
  datatype FieldConfiguration = FieldConfiguration(
    Group: string,
    Name: string,
    Type: CustomFieldType,
    Choices: seq<string>,
    IsLanguageSpecific: bool,
    Value: seq<string>)

  /** The separator `strings.Join` is called with for choices and values. */
  const Comma: char := ','

  /** The desired field for one configuration entry, stamped with the job it belongs to. */
  function FieldFromConfiguration(config: FieldConfiguration, jobId: int): JobCustomField
  {
    ZeroField.(
      Group := config.Group,
      Name := config.Name,
      DefinitionKey := config.Name,
      InternalPermission := PermissionEdit,
      NonInternalPermission := PermissionEdit,
      DefinitionFormatter := config.Type,
      DefinitionAdditionalData := Join(config.Choices, [Comma]),
      IsLanguageSpecific := config.IsLanguageSpecific,
      Value := Join(config.Value, [Comma]),
      HandoffId := jobId)
  }

  /**
   * What the construction promises of one field: the name doubles as the
   * definition key, both permissions are "Edit", the field belongs to the
   * created job, choices and value are comma-joined, the remaining
   * configuration members are copied, and nothing server-assigned is set.
   */
  predicate BuiltFrom(field: JobCustomField, config: FieldConfiguration, jobId: int)
  {
    && field.Name == config.Name
    && field.DefinitionKey == config.Name
    && field.Group == config.Group
    && field.DefinitionFormatter == config.Type
    && field.IsLanguageSpecific == config.IsLanguageSpecific
    && field.InternalPermission == PermissionEdit
    && field.NonInternalPermission == PermissionEdit
    && field.HandoffId == jobId
    && field.DefinitionAdditionalData == Join(config.Choices, [Comma])
    && field.Value == Join(config.Value, [Comma])
    && field.CustomFieldId == 0
    && field.RequestorId == 0
  }

  /**
   * The field-building loop of `main` (main.go:806-820): one field per
   * configuration entry, appended in order.
   */
  function BuildCustomFields(configs: seq<FieldConfiguration>, jobId: int): (fields: seq<JobCustomField>)
    ensures |fields| == |configs|
    ensures forall k :: 0 <= k < |fields| ==> BuiltFrom(fields[k], configs[k], jobId)
    decreases |configs|
  {
    if |configs| == 0 then []
    else
      var n := |configs| - 1;
      BuildCustomFields(configs[..n], jobId) + [FieldFromConfiguration(configs[n], jobId)]
  }

  /**
   * The serialised value and choices can be read back: splitting them at the
   * comma gives the configured lists, provided these are non-empty and
   * comma-free. An empty list serialises to the empty string.
   */
  lemma SerialisedListsRoundTrip(config: FieldConfiguration, jobId: int)
    ensures |config.Value| == 0 ==> FieldFromConfiguration(config, jobId).Value == ""
    ensures |config.Choices| == 0 ==> FieldFromConfiguration(config, jobId).DefinitionAdditionalData == ""
    ensures |config.Value| >= 1 && (forall k :: 0 <= k < |config.Value| ==> Comma !in config.Value[k])
      ==> Split(FieldFromConfiguration(config, jobId).Value, Comma) == config.Value
    ensures |config.Choices| >= 1 && (forall k :: 0 <= k < |config.Choices| ==> Comma !in config.Choices[k])
      ==> Split(FieldFromConfiguration(config, jobId).DefinitionAdditionalData, Comma) == config.Choices
  {
    if |config.Value| >= 1 && (forall k :: 0 <= k < |config.Value| ==> Comma !in config.Value[k]) {
      SplitJoin(config.Value, Comma);
    }
    if |config.Choices| >= 1 && (forall k :: 0 <= k < |config.Choices| ==> Comma !in config.Choices[k]) {
      SplitJoin(config.Choices, Comma);
    }
  }

  /** Two example serialisations: `[]` gives "" and `["a","b"]` gives "a,b". */
  lemma JoinExamples()
    ensures Join([], [Comma]) == ""
    ensures Join(["a", "b"], [Comma]) == "a,b"
  {
    assert ["a", "b"][1..] == ["b"];
  }
}

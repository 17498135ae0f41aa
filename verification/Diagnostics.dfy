/** Diagnostics (severity and code), and `&mut T` arguments. */
module Diagnostics {

  datatype Severity = Error | Warning

  datatype Code =
    | PolicySyntax | PolicyTemplates | PolicyMissingId | PolicyDuplicateId | PolicyIdPrefix
    | PolicyStructure | PolicyActionUnconstrained | PolicyActionNamespace | PolicyNamespace
    | PolicySchemaValidation | PolicySchemaWarning
    | SchemaSyntax | SchemaWarning | SchemaNamespace | SchemaDuplicateDeclaration
    | SchemaDuplicateMetadata | SchemaInvalid | SchemaSkipped
    | LabelsInvalidJson | LabelsTooManyRules | LabelsTooManyPatterns | LabelsRegexBudget
    | LabelsInvalidTarget | LabelsEmptyField | LabelsInputIsOutput | LabelsDuplicateDestination
    | LabelsEmptyPatterns | LabelsEmptyPatternName | LabelsDuplicatePatternName | LabelsEmptyRegex
    | LabelsRegexTooLarge | LabelsInvalidConfiguration | LabelsInvalidRegex | LabelsNamespace
    | LabelsUnknownKind | LabelsMissingShape | LabelsFieldNotString | LabelsFieldMissing
    | LabelsOutputNotStringSet | LabelsOutputMissing
    | ManifestVersion | ManifestEmptyName | ManifestEmptyModules | ManifestEmptyNamespace
    | ManifestInvalidNamespace | ManifestDuplicateImport | ManifestSelfImport
    | ManifestInvalidInputPath | ManifestInputEscape | ManifestInputUnreadable
    | ManifestDuplicateModule | ManifestOverlap | ManifestUnresolvedImport
    | ArchivePolicyModuleMissing | ArchivePolicyIdsMismatch

  datatype Diagnostic = Diagnostic(severity: Severity, code: Code)

  function ErrorOf(code: Code): Diagnostic { Diagnostic(Error, code) }

  function WarningOf(code: Code): Diagnostic { Diagnostic(Warning, code) }

  predicate HasError(diagnostics: seq<Diagnostic>) {
    exists d :: d in diagnostics && d.severity.Error?
  }

  /** `diagnostics` continues `before`; an error is among them iff one was before or `bad`, and if
      not `bad` exactly the warnings given were added. */
  predicate Appended(before: seq<Diagnostic>, diagnostics: seq<Diagnostic>, bad: bool, warnings: seq<Diagnostic>) {
    && before <= diagnostics
    && (HasError(diagnostics) <==> HasError(before) || bad)
    && (!bad ==> diagnostics == before + warnings)
  }

  lemma PushedWarnings(before: seq<Diagnostic>, diagnostics: seq<Diagnostic>, warnings: seq<Diagnostic>)
    requires diagnostics == before + warnings
    requires forall w :: w in warnings ==> w.severity.Warning?
    ensures Appended(before, diagnostics, false, warnings)
  {
  }

  /** One step after another. */
  lemma AppendedTwice(a: seq<Diagnostic>, b: seq<Diagnostic>, c: seq<Diagnostic>, bad: bool, worse: bool,
                      first: seq<Diagnostic>, second: seq<Diagnostic>)
    requires Appended(a, b, bad, first) && Appended(b, c, worse, second)
    ensures Appended(a, c, bad || worse, first + second)
  {
  }

  function Repeated(d: Diagnostic, n: nat): (r: seq<Diagnostic>)
    ensures |r| == n && forall i :: 0 <= i < n ==> r[i] == d
  {
    seq(n, _ => d)
  }

  /** `diagnostics` is `before` and, iff `bad`, some more errors. */
  predicate Reported(before: seq<Diagnostic>, diagnostics: seq<Diagnostic>, bad: bool) {
    && before <= diagnostics
    && (bad <==> |before| < |diagnostics|)
    && forall i :: |before| <= i < |diagnostics| ==> diagnostics[i].severity.Error?
  }

  lemma ReportedIsAppended(before: seq<Diagnostic>, diagnostics: seq<Diagnostic>, bad: bool)
    requires Reported(before, diagnostics, bad)
    ensures Appended(before, diagnostics, bad, [])
  {
    if bad { assert diagnostics[|before|] in diagnostics; }
    assert forall d :: d in before ==> d in diagnostics;
    forall d | d in diagnostics && d !in before ensures d.severity.Error? && bad {
      var i :| 0 <= i < |diagnostics| && diagnostics[i] == d;
    }
  }

  method ReportIf(when: bool, code: Code, diagnostics: Mut<seq<Diagnostic>>)
    modifies diagnostics
    ensures diagnostics.value == old(diagnostics.value) + if when then [ErrorOf(code)] else []
    ensures Reported(old(diagnostics.value), diagnostics.value, when)
  {
    if when {
      diagnostics.value := diagnostics.value + [ErrorOf(code)];
    }
  }

  method WarnIf(when: bool, code: Code, diagnostics: Mut<seq<Diagnostic>>)
    modifies diagnostics
    ensures Appended(old(diagnostics.value), diagnostics.value, false, if when then [WarningOf(code)] else [])
  {
    if when {
      diagnostics.value := diagnostics.value + [WarningOf(code)];
      PushedWarnings(old(diagnostics.value), diagnostics.value, [WarningOf(code)]);
    }
  }

  /** A value passed as `&mut T`. */
  class Mut<T> {
    var value: T

    constructor (value: T)
      ensures this.value == value
    {
      this.value := value;
    }
  }

  datatype Option<+T> = None | Some(value: T)

  datatype BundleError =
    | Validation(diagnostics: seq<Diagnostic>)
    | Io
    | Key
    | Archive
    | SizeLimit

  datatype Result<+T> = Ok(value: T) | Err(error: BundleError)
}

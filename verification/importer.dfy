/** The client-side import sequencer: each CSV goes through a preview request and, when
    the preview is clean and yields a token, a confirm request; the four imports run in
    dependency order and stop at the first failure. The HTTP responses are inputs. */
module Importer {
  import opened Wrappers

  const OK_STATUS: int := 200

  /** The import endpoints, in the order the data depends on each other. */
  datatype Endpoint = EquipmentMatrix | Products | Orders | ProductionHistory

  const IMPORTS: seq<Endpoint> := [EquipmentMatrix, Products, Orders, ProductionHistory]

  /** The endpoint's name in `/api/imports/<name>/preview` and `/confirm`. */
  function EndpointName(e: Endpoint): string {
    match e
    case EquipmentMatrix => "equipment-matrix"
    case Products => "products"
    case Orders => "orders"
    case ProductionHistory => "production-history"
  }

  /** How many error entries, and how many warning entries, `import_csv` prints. */
  const ERRORS_SHOWN: nat := 5
  const WARNINGS_SHOWN: nat := 3

  /** An entry of the preview's `errors` or `warnings` list. Its message is printed only;
      what matters is whether it is a JSON object, because printing calls `.get` on it,
      which raises on anything else. */
  datatype Entry = ObjectEntry | OtherEntry

  /** What the preview request returns: its status; whether the body parses as a JSON
      object; the error and warning lists (empty when absent); whether the `preview`
      field is a JSON object (true when absent, as its default `{}` is); and the import
      token (`None` when absent). */
  datatype PreviewResponse = PreviewResponse(
    status: int,
    isObject: bool,
    errors: seq<Entry>,
    warnings: seq<Entry>,
    previewIsObject: bool,
    importToken: Option<string>)

  /** What the confirm request returns: its status, and whether its body parses as JSON. */
  datatype ConfirmResponse = ConfirmResponse(status: int, isJson: bool)

  /** The result of one import: whether `import_csv` returned true, the token posted to
      the confirm endpoint (`None` when no confirm request was sent), and whether it
      raised instead of returning, which ends the whole script with exit status 1. */
  datatype ImportResult = ImportResult(ok: bool, confirmedWith: Option<string>, aborted: bool)

  /** `.get` succeeds on each of the first `limit` entries, the ones that are printed. */
  predicate ShownAreObjects(entries: seq<Entry>, limit: nat) {
    forall i :: 0 <= i < |entries| && i < limit ==> entries[i].ObjectEntry?
  }

  /** `not token` is false only for a present, non-empty token. */
  predicate HasToken(preview: PreviewResponse) {
    preview.importToken.Some? && preview.importToken.value != ""
  }

  /** After a successful preview, reading its body raises: the body is not a JSON object,
      a printed error entry is not an object, or (with no errors) a printed warning entry
      or the `preview` field is not an object. */
  predicate PreviewCrashes(preview: PreviewResponse) {
    && preview.status == OK_STATUS
    && (|| !preview.isObject
        || (if preview.errors != [] then !ShownAreObjects(preview.errors, ERRORS_SHOWN)
            else !ShownAreObjects(preview.warnings, WARNINGS_SHOWN) || !preview.previewIsObject))
  }

  /** The preview lets the import proceed to confirmation. */
  predicate PreviewPasses(preview: PreviewResponse) {
    && preview.status == OK_STATUS
    && preview.isObject
    && preview.errors == []
    && ShownAreObjects(preview.warnings, WARNINGS_SHOWN)
    && preview.previewIsObject
    && HasToken(preview)
  }

  /** `import_csv`: stop on a failed preview, on preview errors, on a missing token;
      otherwise confirm with the token and succeed iff the confirm succeeds. Reading a
      body that is not what the script expects raises instead. */
  function ImportCsv(preview: PreviewResponse, confirm: ConfirmResponse): (r: ImportResult)
    ensures r.confirmedWith.Some? <==> PreviewPasses(preview)
    ensures r.confirmedWith.Some? ==> r.confirmedWith == preview.importToken
    ensures r.ok <==> PreviewPasses(preview) && confirm.status == OK_STATUS && confirm.isJson
    ensures r.aborted <==>
      PreviewCrashes(preview) || (PreviewPasses(preview) && confirm.status == OK_STATUS && !confirm.isJson)
    ensures r.aborted ==> !r.ok
  {
    if preview.status != OK_STATUS then ImportResult(false, None, false)
    else if !preview.isObject then ImportResult(false, None, true)
    else if preview.errors != [] then ImportResult(false, None, !ShownAreObjects(preview.errors, ERRORS_SHOWN))
    else if !ShownAreObjects(preview.warnings, WARNINGS_SHOWN) || !preview.previewIsObject then
      ImportResult(false, None, true)
    else if !HasToken(preview) then ImportResult(false, None, false)
    else if confirm.status != OK_STATUS then ImportResult(false, preview.importToken, false)
    else if !confirm.isJson then ImportResult(false, preview.importToken, true)
    else ImportResult(true, preview.importToken, false)
  }

  /** A preview that does not pass stops the import before any confirm request, whatever
      the confirm endpoint would have answered. */
  lemma EarlyStopsSendNoConfirm(preview: PreviewResponse, c1: ConfirmResponse, c2: ConfirmResponse)
    requires !PreviewPasses(preview)
    ensures !ImportCsv(preview, c1).ok && ImportCsv(preview, c1).confirmedWith.None?
    ensures ImportCsv(preview, c1) == ImportCsv(preview, c2)
  {
  }

  /** Warnings whose printed entries are objects never change the result: the import
      goes exactly as if there were none. */
  lemma WarningsNeverBlock(preview: PreviewResponse, warnings: seq<Entry>, confirm: ConfirmResponse)
    requires ShownAreObjects(warnings, WARNINGS_SHOWN)
    ensures ImportCsv(preview.(warnings := warnings), confirm) == ImportCsv(preview.(warnings := []), confirm)
  {
  }

  /** A printed warning entry that is not an object aborts a clean preview before the
      token is looked at, so no confirm is sent even with a valid token. */
  lemma OddWarningAborts(preview: PreviewResponse, confirm: ConfirmResponse, k: nat)
    requires preview.status == OK_STATUS && preview.isObject && preview.errors == []
    requires k < |preview.warnings| && k < WARNINGS_SHOWN && preview.warnings[k].OtherEntry?
    ensures ImportCsv(preview, confirm).aborted && ImportCsv(preview, confirm).confirmedWith.None?
  {
  }

  /** A warning entry past the printed ones is never read, so it cannot abort. */
  lemma UnshownWarningsIgnored(preview: PreviewResponse, confirm: ConfirmResponse, extra: seq<Entry>)
    requires |preview.warnings| >= WARNINGS_SHOWN
    ensures ImportCsv(preview.(warnings := preview.warnings + extra), confirm) == ImportCsv(preview, confirm)
  {
    var w := preview.warnings + extra;
    assert forall i :: 0 <= i < WARNINGS_SHOWN ==> w[i] == preview.warnings[i];
  }

  /** The outcome of each import, in import order. */
  function Outcomes(previews: Endpoint -> PreviewResponse, confirms: Endpoint -> ConfirmResponse): (oks: seq<bool>)
    ensures |oks| == |IMPORTS|
    ensures forall i :: 0 <= i < |IMPORTS| ==>
      (oks[i] <==> PreviewPasses(previews(IMPORTS[i])) && confirms(IMPORTS[i]).status == OK_STATUS
                   && confirms(IMPORTS[i]).isJson)
  {
    seq(|IMPORTS|, i requires 0 <= i < |IMPORTS| => ImportCsv(previews(IMPORTS[i]), confirms(IMPORTS[i])).ok)
  }

  /** The length of the longest run of successes at the front of `oks`. */
  function LeadingSuccesses(oks: seq<bool>): (n: nat)
    ensures n <= |oks|
    ensures forall i :: 0 <= i < n ==> oks[i]
    ensures n < |oks| ==> !oks[n]
  {
    if oks == [] || !oks[0] then 0 else 1 + LeadingSuccesses(oks[1..])
  }

  /** Any all-success prefix ended by a failure or by the end is the longest one. */
  lemma {:induction false} LeadingSuccessesUnique(oks: seq<bool>, n: nat)
    requires n <= |oks|
    requires forall i :: 0 <= i < n ==> oks[i]
    requires n < |oks| ==> !oks[n]
    ensures LeadingSuccesses(oks) == n
  {
    if n > 0 {
      LeadingSuccessesUnique(oks[1..], n - 1);
    }
  }

  /** The number of imports attempted: the successes and, if any, the failure that stopped. */
  function AttemptCount(successCount: nat): nat {
    if successCount < |IMPORTS| then successCount + 1 else |IMPORTS|
  }

  /** `main` after `wait_for_server`: import in the fixed order, count successes, stop at
      the first failure; exit 0 iff every import succeeded, 1 when the server never
      became ready. `aborted` says the stopping import raised, ending the script at once. */
  method RunImports(serverReady: bool, previews: Endpoint -> PreviewResponse, confirms: Endpoint -> ConfirmResponse)
    returns (successCount: nat, attempted: seq<Endpoint>, exitCode: int, aborted: bool)
    ensures !serverReady ==> successCount == 0 && attempted == [] && exitCode == 1 && !aborted
    ensures serverReady ==>
      && successCount == LeadingSuccesses(Outcomes(previews, confirms))
      && attempted == IMPORTS[..AttemptCount(successCount)]
    ensures exitCode == 0 || exitCode == 1
    ensures exitCode == 0 <==> serverReady && forall e :: e in IMPORTS ==> ImportCsv(previews(e), confirms(e)).ok
    ensures aborted <==> (serverReady && successCount < |IMPORTS|
      && ImportCsv(previews(IMPORTS[successCount]), confirms(IMPORTS[successCount])).aborted)
  {
    if !serverReady {
      return 0, [], 1, false;
    }
    ghost var oks := Outcomes(previews, confirms);
    successCount := 0;
    attempted := [];
    aborted := false;
    var i := 0;
    while i < |IMPORTS|
      invariant 0 <= i <= |IMPORTS|
      invariant successCount == i
      invariant attempted == IMPORTS[..i]
      invariant forall m :: 0 <= m < i ==> oks[m]
      invariant !aborted
    {
      var endpoint := IMPORTS[i];
      attempted := attempted + [endpoint];
      assert attempted == IMPORTS[..i + 1];
      var result := ImportCsv(previews(endpoint), confirms(endpoint));
      if result.ok {
        successCount := successCount + 1;
      } else {
        aborted := result.aborted;
        break;
      }
      i := i + 1;
    }
    LeadingSuccessesUnique(oks, successCount);
    var success := successCount == |IMPORTS|;
    exitCode := if success then 0 else 1;
    if !success {
      assert !ImportCsv(previews(IMPORTS[successCount]), confirms(IMPORTS[successCount])).ok;
    }
  }

  /** The halt-on-failure scenario: when the first two imports succeed and the third
      fails, two imports count as done and the fourth is never attempted. */
  lemma ThirdFailureStopsAtTwo(oks: seq<bool>)
    requires |oks| == |IMPORTS| && oks[0] && oks[1] && !oks[2]
    ensures LeadingSuccesses(oks) == 2
    ensures AttemptCount(LeadingSuccesses(oks)) == 3
  {
    LeadingSuccessesUnique(oks, 2);
  }
}

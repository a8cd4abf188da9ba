/**
 * The environment comparison screen in its single-file form, the one the
 * application mounts. It holds the same state as the component-based form and
 * runs the same workflow, with these differences: select-all does nothing without
 * a comparison, the edit dialog opens even when no secret could be read, the
 * export report leaves a name out when the environment is unknown, and the Azure
 * CLI script is built inline.
 */
module ComparisonMonolith {
  import opened Wrappers
  import opened Text
  import opened ComparisonHelpers
  import opened BatchCopy
  import opened AzureCli

  /** What the copy confirmation dialog holds. */
  datatype CopyRequest = CopyRequest(
    secrets: seq<string>,
    sourceEnv: string,
    targetEnv: string,
    sourceEnvName: string,
    targetEnvName: string)

  /** What an edited copy reports once every write has finished. */
  datatype EditedCopyReport = EditedCopyReport(
    results: seq<CopyOutcome>,
    successCount: nat,
    failureCount: nat,
    editedCount: nat)

  /** `environments.find(e => e.id === envId)?.name`: absent when no environment matches or it has no name. */
  function FoundName(environments: seq<Environment>, envId: string): (r: Option<string>)
    ensures r.Some? ==> exists e :: e in environments && e.id == envId && e.name == r
    ensures GetEnvironment(environments, envId).None? ==> r == None
    ensures forall i ::
      (0 <= i < |environments| && environments[i].id == envId
       && forall j :: 0 <= j < i ==> environments[j].id != envId) ==>
      r == environments[i].name
  {
    FirstMatchIsFound(environments, envId);
    match GetEnvironment(environments, envId)
    case None => None
    case Some(e) => e.name
  }

  /** The report object built by the inline `exportComparison` (its timestamp is left out). */
  function MonolithReport(c: Comparison, environments: seq<Environment>, sourceEnv: string, targetEnv: string): (r: Report)
    ensures r.source.id == sourceEnv && r.target.id == targetEnv
    ensures ReportedComparison(r) == c && r.summary == c.summary
    ensures r.source.name == FoundName(environments, sourceEnv) && r.target.name == FoundName(environments, targetEnv)
  {
    Report(
      EnvRef(sourceEnv, FoundName(environments, sourceEnv)),
      EnvRef(targetEnv, FoundName(environments, targetEnv)),
      c.summary, c.onlyInEnv1, c.onlyInEnv2, c.inBoth)
  }

  /**
   * The two reports differ only in the names: they agree when the environment is
   * found with a non-empty name; when it is not found the single-file report has
   * no name and the helper's report names it by its id.
   */
  lemma ReportsDifferOnlyInNames(c: Comparison, environments: seq<Environment>, sourceEnv: string, targetEnv: string)
    ensures var m, h := MonolithReport(c, environments, sourceEnv, targetEnv), ExportReport(c, environments, sourceEnv, targetEnv);
      && m.source.id == h.source.id && m.target.id == h.target.id
      && ReportedComparison(m) == ReportedComparison(h)
      && (Truthy(FoundName(environments, sourceEnv)) ==> m.source.name == h.source.name)
      && (GetEnvironment(environments, sourceEnv).None? ==> m.source.name == None && h.source.name == Some(sourceEnv))
      && (Truthy(FoundName(environments, targetEnv)) ==> m.target.name == h.target.name)
      && (GetEnvironment(environments, targetEnv).None? ==> m.target.name == None && h.target.name == Some(targetEnv))
  {
    ReportKeepsComparison(c, environments, sourceEnv, targetEnv);
  }

  /** The secrets read for the script: one per successful read, in read order. */
  function WithValues(fetched: seq<Option<SecretRecord>>): (secrets: seq<SecretWithValue>)
    ensures |secrets| <= |fetched|
  {
    if fetched == [] then []
    else if fetched[0].None? then WithValues(fetched[1..])
    else [SecretWithValue(fetched[0].value.name, fetched[0].value.value)] + WithValues(fetched[1..])
  }

  lemma {:induction false} WithValuesAppend(a: seq<Option<SecretRecord>>, b: seq<Option<SecretRecord>>)
    ensures WithValues(a + b) == WithValues(a) + WithValues(b)
  {
    if a == [] {
      assert a + b == b;
    } else {
      assert (a + b)[0] == a[0];
      assert (a + b)[1..] == a[1..] + b;
      WithValuesAppend(a[1..], b);
    }
  }

  /** Every read succeeded exactly when every selected secret made it into the script. */
  lemma {:induction false} WithValuesComplete(fetched: seq<Option<SecretRecord>>)
    ensures |WithValues(fetched)| == |fetched| <==> forall i :: 0 <= i < |fetched| ==> fetched[i].Some?
  {
    if fetched != [] {
      WithValuesComplete(fetched[1..]);
      assert forall i :: 0 <= i < |fetched[1..]| ==> fetched[1..][i] == fetched[i + 1];
    }
  }

  /** The read loop of the script generator: keeps name and value of each secret read, in read order. */
  method CollectWithValues(fetched: seq<Option<SecretRecord>>) returns (secrets: seq<SecretWithValue>)
    ensures secrets == WithValues(fetched)
  {
    secrets := [];
    var i := 0;
    while i < |fetched|
      invariant 0 <= i <= |fetched|
      invariant secrets == WithValues(fetched[..i])
    {
      var data := fetched[i];
      assert fetched[..i + 1] == fetched[..i] + [data];
      WithValuesAppend(fetched[..i], [data]);
      if data.Some? {
        secrets := secrets + [SecretWithValue(data.value.name, data.value.value)];
      }
      i := i + 1;
    }
    assert fetched[..i] == fetched;
  }

  /** The command loop of the script generator: one numbered `secret set` block per secret after the header. */
  method AppendSecretBlocks(header: Segment, secrets: seq<SecretWithValue>, vaultName: string) returns (script: seq<Segment>)
    ensures script == [header] + SecretBlocks(secrets, vaultName)
  {
    script := [header];
    var index := 0;
    while index < |secrets|
      invariant 0 <= index <= |secrets|
      invariant script == [header] + SecretBlocks(secrets[..index], vaultName)
    {
      BlocksGrow(secrets, index, vaultName);
      script := script + [SecretBlock(index, secrets[index], vaultName)];
      index := index + 1;
    }
    assert secrets[..index] == secrets;
  }

  /**
   * The script the single-file screen builds: the same parts as the helper's
   * script, except that the header's "Copy N secret(s)" line counts the selected
   * secrets rather than the secrets read.
   */
  function MonolithScript(selectedCount: nat, secrets: seq<SecretWithValue>, vaultName: string, targetEnvName: Option<string>): (script: seq<Segment>)
    ensures |script| == |secrets| + 2
    ensures script[0].Header? && script[0].secretCount == |secrets| && script[0].copyCount == selectedCount
    ensures script[|script| - 1] == Footer(vaultName)
  {
    [Header(vaultName, |secrets|, selectedCount, targetEnvName)] + SecretBlocks(secrets, vaultName) + [Footer(vaultName)]
  }

  /**
   * The header's copy count matches the number of `secret set` blocks exactly when
   * every selected secret was read; otherwise the scripts of the two copies differ
   * only in that count.
   */
  lemma MonolithHeaderCount(selectedCount: nat, secrets: seq<SecretWithValue>, vaultName: string, envName: Option<string>)
    ensures var script := MonolithScript(selectedCount, secrets, vaultName, envName);
      && SetCount(script) == |secrets|
      && (script[0].copyCount == SetCount(script) <==> selectedCount == |secrets|)
      && script[1..] == Script(secrets, vaultName, envName)[1..]
      && (selectedCount == |secrets| ==> script == Script(secrets, vaultName, envName))
  {
    ScriptAgreesWithSecrets(secrets, vaultName, envName);
    var script := MonolithScript(selectedCount, secrets, vaultName, envName);
    var helper := Script(secrets, vaultName, envName);
    var tail := SecretBlocks(secrets, vaultName) + [Footer(vaultName)];
    assert script == [script[0]] + tail && helper == [helper[0]] + tail;
    SetCountAppend([script[0]], tail);
    SetCountAppend([helper[0]], tail);
    assert SetCount([script[0]]) == 0 == SetCount([helper[0]]);
    assert SetCount(script) == SetCount(helper) == |secrets|;
  }

  /** Two secrets selected, one of them unreadable: the header announces two copies over one block. */
  lemma MonolithHeaderOvercounts()
    ensures var script := MonolithScript(2, [SecretWithValue("db-password", "s3cret")], DefaultVaultName, None);
      script[0].copyCount == 2 && SetCount(script) == 1
  {
    MonolithHeaderCount(2, [SecretWithValue("db-password", "s3cret")], DefaultVaultName, None);
  }

  class EnvironmentComparison {
    var environments: seq<Environment>
    var sourceEnv: string
    var targetEnv: string
    var comparison: Option<Comparison>
    var selectedSecrets: seq<string>
    var searchTerm: string
    var showCopyModal: bool
    var copyModalData: Option<CopyRequest>
    var editModalVisible: bool
    var editingSecrets: seq<EditingSecret>
    var formValues: map<string, string>

    /** Every selected name is a source-only or in-both name of the current comparison. */
    predicate SelectionCopyable()
      reads this`comparison, this`selectedSecrets
    {
      forall n :: n in selectedSecrets ==> n in CopyableSecrets(comparison, "")
    }

    /** Both environments are chosen and they differ: the condition for a comparison request. */
    predicate CanCompare()
      reads this`sourceEnv, this`targetEnv
    {
      sourceEnv != "" && targetEnv != "" && sourceEnv != targetEnv
    }

    constructor ()
      ensures environments == [] && sourceEnv == "" && targetEnv == ""
      ensures comparison == None && selectedSecrets == [] && searchTerm == ""
      ensures !showCopyModal && copyModalData == None
      ensures !editModalVisible && editingSecrets == [] && formValues == map[]
      ensures SelectionCopyable()
    {
      environments, sourceEnv, targetEnv := [], "", "";
      comparison, selectedSecrets, searchTerm := None, [], "";
      showCopyModal, copyModalData := false, None;
      editModalVisible, editingSecrets, formValues := false, [], map[];
    }

    /** `loadEnvironments`: as in the component-based form. */
    method LoadEnvironments(fetched: Option<seq<Environment>>)
      modifies this`environments, this`sourceEnv, this`targetEnv
      ensures fetched.None? ==> environments == old(environments)
      ensures fetched.Some? ==> environments == fetched.value
      ensures if fetched.Some? && |fetched.value| >= 2
        then sourceEnv == fetched.value[0].id && targetEnv == fetched.value[1].id
        else sourceEnv == old(sourceEnv) && targetEnv == old(targetEnv)
    {
      if fetched.Some? {
        environments := fetched.value;
        if |fetched.value| >= 2 {
          sourceEnv := fetched.value[0].id;
          targetEnv := fetched.value[1].id;
        }
      }
    }

    /** The source selector's `onChange`; the comparison and the selection are kept. */
    method SetSourceEnv(envId: string)
      modifies this`sourceEnv
      ensures sourceEnv == envId
    {
      sourceEnv := envId;
    }

    /** The target selector's `onChange`; the comparison and the selection are kept. */
    method SetTargetEnv(envId: string)
      modifies this`targetEnv
      ensures targetEnv == envId
    {
      targetEnv := envId;
    }

    method SetSearchTerm(term: string)
      modifies this`searchTerm
      ensures searchTerm == term
    {
      searchTerm := term;
    }

    /**
     * `handleCompare`: without two different environments nothing happens;
     * otherwise the comparison and the selection are cleared and the comparison
     * becomes the server's answer (absent when the request failed).
     */
    method Compare(fetched: Option<Comparison>) returns (requested: bool)
      modifies this`comparison, this`selectedSecrets
      ensures requested == CanCompare()
      ensures requested ==> comparison == fetched && selectedSecrets == []
      ensures !requested ==> comparison == old(comparison) && selectedSecrets == old(selectedSecrets)
      ensures old(SelectionCopyable()) ==> SelectionCopyable()
    {
      requested := CanCompare();
      if requested {
        comparison := None;
        selectedSecrets := [];
        comparison := fetched;
      }
    }

    /**
     * The row checkbox: ticking appends the row's name, unticking removes every
     * occurrence of it. The checkbox of a target-only row is disabled, so a ticked
     * row on show always keeps the selection copyable.
     */
    method ToggleRow(row: Row, checked: bool)
      requires row.status != OnlyInTarget
      modifies this`selectedSecrets
      ensures checked ==> selectedSecrets == old(selectedSecrets) + [row.name]
      ensures !checked ==> selectedSecrets == Without(old(selectedSecrets), row.name)
      ensures old(SelectionCopyable()) && (checked ==> row in TableData(comparison, searchTerm))
        ==> SelectionCopyable()
    {
      if checked {
        if row in TableData(comparison, searchTerm) {
          ShownRowIsCopyable(comparison, searchTerm, row);
        }
        selectedSecrets := selectedSecrets + [row.name];
      } else {
        selectedSecrets := Without(selectedSecrets, row.name);
      }
    }

    /** `getTableData`: the rows on show, built group by group and filtered by the search term. */
    method GetTableData() returns (rows: seq<Row>)
      ensures rows == TableData(comparison, searchTerm)
      ensures forall x :: x in rows ==> WellKeyed(x)
    {
      rows := PrepareTableData(comparison, searchTerm);
      TableRowsWellKeyed(comparison, searchTerm);
    }

    /**
     * `selectAll`: without a comparison nothing changes; otherwise the selection
     * becomes the copyable names matching the search term, which are the names of
     * the enabled rows on show.
     */
    method SelectAll()
      modifies this`selectedSecrets
      ensures comparison == None ==> selectedSecrets == old(selectedSecrets)
      ensures comparison != None ==> selectedSecrets == SelectableNames(TableData(comparison, searchTerm))
      ensures comparison != None || old(SelectionCopyable()) ==> SelectionCopyable()
    {
      if comparison == None {
        return;
      }
      selectedSecrets := CopyableSecrets(comparison, searchTerm);
      CopyableAreSelectableRows(comparison, searchTerm);
    }

    method DeselectAll()
      modifies this`selectedSecrets
      ensures selectedSecrets == []
      ensures SelectionCopyable()
    {
      selectedSecrets := [];
    }

    /** `handleSwapEnvironments`: source and target trade places; comparison and selection are cleared. */
    method Swap()
      modifies this`sourceEnv, this`targetEnv, this`comparison, this`selectedSecrets
      ensures sourceEnv == old(targetEnv) && targetEnv == old(sourceEnv)
      ensures comparison == None && selectedSecrets == []
      ensures SelectionCopyable()
    {
      sourceEnv, targetEnv := targetEnv, sourceEnv;
      comparison := None;
      selectedSecrets := [];
    }

    /** The inline `exportComparison`: the report of the current comparison, or nothing when there is none. */
    method Export() returns (report: Option<Report>)
      ensures report.None? <==> comparison.None?
      ensures report.Some? ==> ReportedComparison(report.value) == comparison.value
      ensures report.Some? ==>
        report.value.source.name == FoundName(environments, sourceEnv)
        && report.value.target.name == FoundName(environments, targetEnv)
      ensures report.Some? ==>
        && report.value.source.id == sourceEnv && report.value.target.id == targetEnv
        && report.value == MonolithReport(comparison.value, environments, sourceEnv, targetEnv)
    {
      if comparison.None? {
        return None;
      }
      report := Some(MonolithReport(comparison.value, environments, sourceEnv, targetEnv));
    }

    /**
     * `handleCopySelected`: with a non-empty selection the confirmation dialog
     * opens holding a copy of the selection and both environments with their
     * names (an unknown environment is named by its id).
     */
    method CopySelected() returns (shown: bool)
      modifies this`copyModalData, this`showCopyModal
      ensures shown <==> selectedSecrets != []
      ensures shown ==> showCopyModal && copyModalData == Some(CopyRequest(
        selectedSecrets, sourceEnv, targetEnv,
        EnvironmentName(environments, sourceEnv), EnvironmentName(environments, targetEnv)))
      ensures !shown ==> showCopyModal == old(showCopyModal) && copyModalData == old(copyModalData)
    {
      shown := selectedSecrets != [];
      if shown {
        copyModalData := Some(CopyRequest(
          selectedSecrets, sourceEnv, targetEnv,
          EnvironmentName(environments, sourceEnv), EnvironmentName(environments, targetEnv)));
        showCopyModal := true;
      }
    }

    /**
     * `handleConfirmCopyModal`: without a pending request nothing happens.
     * Otherwise the dialog closes; when the copy request throws, nothing else
     * changes; when it answers, its counts are classified, the comparison is
     * requested again and the selection and the request are cleared.
     */
    method ConfirmCopyModal(call: CopyCall, refreshed: Option<Comparison>) returns (verdict: Option<Verdict>)
      modifies this`showCopyModal, this`copyModalData, this`comparison, this`selectedSecrets
      ensures old(copyModalData) == None ==>
        verdict == None && showCopyModal == old(showCopyModal) && copyModalData == None
        && comparison == old(comparison) && selectedSecrets == old(selectedSecrets)
      ensures old(copyModalData).Some? ==> !showCopyModal
      ensures old(copyModalData).Some? && call.CopyThrew? ==>
        verdict == None && copyModalData == old(copyModalData)
        && comparison == old(comparison) && selectedSecrets == old(selectedSecrets)
      ensures old(copyModalData).Some? && call.CopyAnswered? ==>
        verdict == Some(DirectCopyVerdict(call.body)) && copyModalData == None && selectedSecrets == []
        && comparison == (if CanCompare() then refreshed else old(comparison))
      ensures old(SelectionCopyable()) ==> SelectionCopyable()
    {
      if copyModalData == None {
        return None;
      }
      showCopyModal := false;
      match call {
        case CopyThrew(_) =>
          verdict := None;
        case CopyAnswered(body) =>
          verdict := Some(DirectCopyVerdict(body));
          var _ := Compare(refreshed);
          selectedSecrets := [];
          copyModalData := None;
      }
    }

    /**
     * `handleEditBeforeCopy`: with a non-empty selection, each selected secret is
     * read in selection order (`fetched[i]` answers the i-th read), failed reads are
     * skipped, and the edit dialog opens with what was read, even when that is
     * nothing.
     */
    method EditBeforeCopy(fetched: seq<Option<SecretRecord>>) returns (shown: bool)
      requires |fetched| == |selectedSecrets|
      modifies this`editingSecrets, this`formValues, this`editModalVisible
      ensures shown <==> selectedSecrets != []
      ensures shown ==>
        editModalVisible && editingSecrets == Loaded(fetched)
        && formValues == old(formValues) + InitialValues(Loaded(fetched))
      ensures shown && (forall i :: 0 <= i < |fetched| ==> fetched[i].None?) ==> editingSecrets == []
      ensures !shown ==>
        editModalVisible == old(editModalVisible)
        && editingSecrets == old(editingSecrets) && formValues == old(formValues)
    {
      if selectedSecrets == [] {
        return false;
      }
      var loaded := LoadSelected(selectedSecrets, fetched);
      NothingLoadedIffAllFailed(fetched);
      editingSecrets := loaded;
      formValues := formValues + InitialValues(loaded);
      editModalVisible := true;
      shown := true;
    }

    /**
     * `handleConfirmEditedCopy`: when the form does not validate nothing changes.
     * Otherwise the dialog closes, each secret being edited is written with its
     * form value (`writes[i]` answers the i-th write), the outcomes are counted,
     * a new comparison is requested and the selection, the secrets being edited
     * and the form are cleared.
     */
    method ConfirmEditedCopy(validated: Option<map<string, string>>, writes: seq<WriteOutcome>, refreshed: Option<Comparison>)
      returns (report: Option<EditedCopyReport>)
      requires |writes| == |editingSecrets|
      modifies this`editModalVisible, this`editingSecrets, this`formValues, this`selectedSecrets, this`comparison
      ensures validated.None? ==>
        report.None? && editModalVisible == old(editModalVisible)
        && editingSecrets == old(editingSecrets) && formValues == old(formValues)
        && selectedSecrets == old(selectedSecrets) && comparison == old(comparison)
      ensures validated.Some? ==>
        report.Some?
        && report.value.results == EditedOutcomes(old(editingSecrets), validated.value, writes)
        && report.value.successCount + report.value.failureCount == |old(editingSecrets)|
        && report.value.successCount == WrittenCount(writes)
        && report.value.editedCount <= report.value.successCount
      ensures validated.Some? ==>
        !editModalVisible && editingSecrets == [] && formValues == map[]
        && selectedSecrets == [] && comparison == (if CanCompare() then refreshed else old(comparison))
      ensures old(SelectionCopyable()) ==> SelectionCopyable()
    {
      if validated.None? {
        return None;
      }
      var values := validated.value;
      editModalVisible := false;
      var results := CopyEdited(editingSecrets, values, writes);
      CountsCoverOutcomes(results);
      SuccessesAreWrites(editingSecrets, values, writes);
      EditedAmongSuccesses(editingSecrets, values, writes);
      report := Some(EditedCopyReport(results, SuccessCount(results), FailureCount(results), EditedCount(results)));
      var _ := Compare(refreshed);
      selectedSecrets := [];
      editingSecrets := [];
      formValues := map[];
    }

    /** The target vault's name, read inline from the target environment's Key Vault URL. */
    function TargetVaultName(): (r: string)
      reads this`environments, this`targetEnv
      ensures r != "" && !Includes(r, ".") && !Includes(r, "//")
      ensures GetEnvironment(environments, targetEnv).None? ==> r == DefaultVaultName
      ensures GetEnvironment(environments, targetEnv).Some? ==>
        IsVaultName(GetEnvironment(environments, targetEnv).value.keyVaultUrl, DefaultVaultName, r)
    {
      match GetEnvironment(environments, targetEnv)
      case None => ExtractVaultName(None)
      case Some(e) => ExtractVaultName(e.keyVaultUrl)
    }

    /**
     * `generateAzCliCommands`: nothing for an empty selection. Otherwise each
     * selected secret is read in selection order (`fetched[i]` answers the i-th
     * read, failed reads are skipped) and the script is built: the header, one
     * block per secret read with its value's quotes doubled, and the footer.
     */
    method GenerateAzCliCommands(fetched: seq<Option<SecretRecord>>) returns (commands: Option<seq<Segment>>)
      requires |fetched| == |selectedSecrets|
      ensures commands.None? <==> selectedSecrets == []
      ensures commands.Some? ==> commands.value == MonolithScript(
        |selectedSecrets|, WithValues(fetched), TargetVaultName(), FoundName(environments, targetEnv))
    {
      if selectedSecrets == [] {
        return None;
      }
      var vaultName := TargetVaultName();
      var secretsWithValues := CollectWithValues(fetched);
      var header := Header(vaultName, |secretsWithValues|, |selectedSecrets|, FoundName(environments, targetEnv));
      var script := AppendSecretBlocks(header, secretsWithValues, vaultName);
      commands := Some(script + [Footer(vaultName)]);
    }
  }
}

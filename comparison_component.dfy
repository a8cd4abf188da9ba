/**
 * The environment comparison screen, in its component-based form: the state the
 * screen holds and its handlers for loading environments, comparing, swapping,
 * selecting, exporting, direct copy and edit-before-copy. Each request to the
 * secret store is a parameter carrying its outcome; a request that fails is an
 * absent value. An environment id that is not set yet is the empty string.
 */
module ComparisonComponent {
  import opened Wrappers
  import opened ComparisonHelpers
  import opened BatchCopy

  /** What the direct-copy confirmation dialog holds. */
  datatype CopyRequest = CopyRequest(
    secrets: seq<string>,
    sourceEnv: string,
    targetEnv: string,
    sourceEnvName: string,
    targetEnvName: string)

  /** What an edited copy reports once every write has finished. */
  datatype EditedCopyReport = EditedCopyReport(
    results: seq<CopyOutcome>,
    successCount: nat,
    failureCount: nat,
    editedCount: nat)

  class EnvironmentComparison {
    var environments: seq<Environment>
    var sourceEnv: string
    var targetEnv: string
    var comparison: Option<Comparison>
    var selectedSecrets: seq<string>
    var searchTerm: string
    var copyModalVisible: bool
    var copyModalData: Option<CopyRequest>
    var editModalVisible: bool
    var editingSecrets: seq<EditingSecret>
    var formValues: map<string, string>

    /** Every selected name is a source-only or in-both name of the current comparison. */
    predicate SelectionCopyable()
      reads this`comparison, this`selectedSecrets
    {
      forall n :: n in selectedSecrets ==> n in CopyableSecrets(comparison, "")
    }

    /** The edit form holds, for every secret being edited, the value loaded for it. */
    predicate FormHoldsLoadedValues()
      reads this`editingSecrets, this`formValues
    {
      forall s :: s in editingSecrets ==> s.name in formValues && formValues[s.name] == s.originalValue
    }

    /** Both environments are chosen and they differ: the condition for a comparison request. */
    predicate CanCompare()
      reads this`sourceEnv, this`targetEnv
    {
      sourceEnv != "" && targetEnv != "" && sourceEnv != targetEnv
    }

    constructor ()
      ensures environments == [] && sourceEnv == "" && targetEnv == ""
      ensures comparison == None && selectedSecrets == [] && searchTerm == ""
      ensures !copyModalVisible && copyModalData == None
      ensures !editModalVisible && editingSecrets == [] && formValues == map[]
      ensures SelectionCopyable()
    {
      environments, sourceEnv, targetEnv := [], "", "";
      comparison, selectedSecrets, searchTerm := None, [], "";
      copyModalVisible, copyModalData := false, None;
      editModalVisible, editingSecrets, formValues := false, [], map[];
    }

    /**
     * `loadEnvironments`: a failed request changes nothing; otherwise the list is
     * stored and, when it has at least two entries, the first two become source
     * and target.
     */
    method LoadEnvironments(fetched: Option<seq<Environment>>)
      modifies this`environments, this`sourceEnv, this`targetEnv
      ensures fetched.None? ==> environments == old(environments)
      ensures fetched.Some? ==> environments == fetched.value
      ensures if fetched.Some? && |fetched.value| >= 2
        then sourceEnv == fetched.value[0].id && targetEnv == fetched.value[1].id
        else sourceEnv == old(sourceEnv) && targetEnv == old(targetEnv)
    {
      if fetched.Some? {
        environments := fetched.value;
        if |fetched.value| >= 2 {
          sourceEnv := fetched.value[0].id;
          targetEnv := fetched.value[1].id;
        }
      }
    }

    /** Choosing a source environment; the comparison and the selection are kept. */
    method SetSourceEnv(envId: string)
      modifies this`sourceEnv
      ensures sourceEnv == envId
    {
      sourceEnv := envId;
    }

    /** Choosing a target environment; the comparison and the selection are kept. */
    method SetTargetEnv(envId: string)
      modifies this`targetEnv
      ensures targetEnv == envId
    {
      targetEnv := envId;
    }

    method SetSearchTerm(term: string)
      modifies this`searchTerm
      ensures searchTerm == term
    {
      searchTerm := term;
    }

    /**
     * `handleCompare`: without two different environments nothing happens;
     * otherwise the old comparison and the selection are cleared and the
     * comparison becomes the server's answer (absent when the request failed).
     */
    method Compare(fetched: Option<Comparison>) returns (requested: bool)
      modifies this`comparison, this`selectedSecrets
      ensures requested == CanCompare()
      ensures requested ==> comparison == fetched && selectedSecrets == []
      ensures !requested ==> comparison == old(comparison) && selectedSecrets == old(selectedSecrets)
      ensures old(SelectionCopyable()) ==> SelectionCopyable()
    {
      requested := CanCompare();
      if requested {
        comparison := None;
        selectedSecrets := [];
        comparison := fetched;
      }
    }

    /** `handleSwapEnvironments`: source and target trade places; comparison and selection are cleared. */
    method Swap()
      modifies this`sourceEnv, this`targetEnv, this`comparison, this`selectedSecrets
      ensures sourceEnv == old(targetEnv) && targetEnv == old(sourceEnv)
      ensures comparison == None && selectedSecrets == []
      ensures SelectionCopyable()
    {
      sourceEnv, targetEnv := targetEnv, sourceEnv;
      comparison := None;
      selectedSecrets := [];
    }

    /** Swapping twice restores the chosen pair, with the comparison and the selection cleared. */
    method SwapTwice()
      modifies this`sourceEnv, this`targetEnv, this`comparison, this`selectedSecrets
      ensures sourceEnv == old(sourceEnv) && targetEnv == old(targetEnv)
      ensures comparison == None && selectedSecrets == []
    {
      Swap();
      Swap();
    }

    /**
     * `handleSecretSelect`: ticking appends the name, unticking removes every
     * occurrence of it. Ticking a copyable name keeps the selection copyable;
     * unticking always does.
     */
    method SecretSelect(name: string, checked: bool)
      modifies this`selectedSecrets
      ensures checked ==> selectedSecrets == old(selectedSecrets) + [name]
      ensures !checked ==> selectedSecrets == Without(old(selectedSecrets), name)
      ensures old(SelectionCopyable()) && (checked ==> name in CopyableSecrets(comparison, ""))
        ==> SelectionCopyable()
    {
      if checked {
        selectedSecrets := selectedSecrets + [name];
      } else {
        selectedSecrets := Without(selectedSecrets, name);
      }
    }

    /**
     * `handleSelectAll`: the selection becomes the copyable names that match the
     * search term, which are the names of the enabled rows on show; with no
     * comparison the selection is emptied.
     */
    method SelectAll()
      modifies this`selectedSecrets
      ensures selectedSecrets == SelectableNames(TableData(comparison, searchTerm))
      ensures comparison == None ==> selectedSecrets == []
      ensures SelectionCopyable()
    {
      selectedSecrets := CopyableSecrets(comparison, searchTerm);
      CopyableAreSelectableRows(comparison, searchTerm);
    }

    method DeselectAll()
      modifies this`selectedSecrets
      ensures selectedSecrets == []
      ensures SelectionCopyable()
    {
      selectedSecrets := [];
    }

    /** `handleExport`: the report of the current comparison, or nothing when there is none. */
    method Export() returns (report: Option<Report>)
      ensures report.None? <==> comparison.None?
      ensures report.Some? ==> ReportedComparison(report.value) == comparison.value
      ensures report.Some? ==> report.value.source.id == sourceEnv && report.value.target.id == targetEnv
      ensures report.Some? ==>
        && report.value == ExportReport(comparison.value, environments, sourceEnv, targetEnv)
        && report.value.source.name == Some(EnvironmentName(environments, sourceEnv))
        && report.value.target.name == Some(EnvironmentName(environments, targetEnv))
    {
      if comparison.None? {
        return None;
      }
      ReportKeepsComparison(comparison.value, environments, sourceEnv, targetEnv);
      report := Some(ExportReport(comparison.value, environments, sourceEnv, targetEnv));
    }

    /**
     * `handleDirectCopy`: with a non-empty selection the confirmation dialog opens
     * holding a copy of the selection and both environments with their names;
     * with none nothing changes.
     */
    method DirectCopy() returns (shown: bool)
      modifies this`copyModalData, this`copyModalVisible
      ensures shown <==> selectedSecrets != []
      ensures shown ==> copyModalVisible && copyModalData == Some(CopyRequest(
        selectedSecrets, sourceEnv, targetEnv,
        EnvironmentName(environments, sourceEnv), EnvironmentName(environments, targetEnv)))
      ensures !shown ==> copyModalVisible == old(copyModalVisible) && copyModalData == old(copyModalData)
    {
      shown := selectedSecrets != [];
      if shown {
        copyModalData := Some(CopyRequest(
          selectedSecrets, sourceEnv, targetEnv,
          EnvironmentName(environments, sourceEnv), EnvironmentName(environments, targetEnv)));
        copyModalVisible := true;
      }
    }

    /**
     * `handleConfirmDirectCopy`: without a pending request nothing happens.
     * Otherwise the dialog closes; when the copy request throws, the request is
     * kept and nothing else changes; when it answers, its counts are classified,
     * the comparison is requested again, and the selection and the request are
     * cleared.
     */
    method ConfirmDirectCopy(call: CopyCall, refreshed: Option<Comparison>) returns (verdict: Option<Verdict>)
      modifies this`copyModalVisible, this`copyModalData, this`comparison, this`selectedSecrets
      ensures old(copyModalData) == None ==>
        verdict == None && copyModalVisible == old(copyModalVisible) && copyModalData == None
        && comparison == old(comparison) && selectedSecrets == old(selectedSecrets)
      ensures old(copyModalData).Some? ==> !copyModalVisible
      ensures old(copyModalData).Some? && call.CopyThrew? ==>
        verdict == None && copyModalData == old(copyModalData)
        && comparison == old(comparison) && selectedSecrets == old(selectedSecrets)
      ensures old(copyModalData).Some? && call.CopyAnswered? ==>
        verdict == Some(DirectCopyVerdict(call.body)) && copyModalData == None && selectedSecrets == []
        && comparison == (if CanCompare() then refreshed else old(comparison))
      ensures old(SelectionCopyable()) ==> SelectionCopyable()
    {
      if copyModalData == None {
        return None;
      }
      copyModalVisible := false;
      match call {
        case CopyThrew(_) =>
          verdict := None;
        case CopyAnswered(body) =>
          verdict := Some(DirectCopyVerdict(body));
          var _ := Compare(refreshed);
          selectedSecrets := [];
          copyModalData := None;
      }
    }

    /**
     * `handleEditBeforeCopy`: each selected secret is read from the source in
     * selection order (`fetched[i]` answers the i-th read, absent when it
     * failed). When at least one read succeeds, the secrets read become the ones
     * being edited, the form receives their values and the edit dialog opens;
     * otherwise, and with an empty selection, nothing changes.
     */
    method EditBeforeCopy(fetched: seq<Option<SecretRecord>>) returns (shown: bool)
      requires |fetched| == |selectedSecrets|
      modifies this`editingSecrets, this`formValues, this`editModalVisible
      ensures shown <==> exists i :: 0 <= i < |fetched| && fetched[i].Some?
      ensures shown ==>
        editModalVisible && editingSecrets == Loaded(fetched)
        && formValues == old(formValues) + InitialValues(Loaded(fetched))
      ensures !shown ==>
        editModalVisible == old(editModalVisible)
        && editingSecrets == old(editingSecrets) && formValues == old(formValues)
      ensures shown && NamesDistinct(editingSecrets) ==> FormHoldsLoadedValues()
    {
      if selectedSecrets == [] {
        return false;
      }
      var loaded := LoadSelected(selectedSecrets, fetched);
      NothingLoadedIffAllFailed(fetched);
      if loaded == [] {
        return false;
      }
      editingSecrets := loaded;
      formValues := formValues + InitialValues(loaded);
      shown := true;
      editModalVisible := true;
      if NamesDistinct(loaded) {
        FormReceivesLoaded(old(formValues), loaded);
      }
    }

    /**
     * `handleConfirmEditedCopy`: when the form does not validate nothing changes.
     * Otherwise the dialog closes, each secret being edited is written to the
     * target with its form value (`writes[i]` answers the i-th write), the
     * outcomes are counted, the comparison is requested again and the selection,
     * the secrets being edited and the form are cleared. Every secret is
     * accounted for once, edited copies are among the successes, and a form left
     * as loaded edits nothing.
     */
    method ConfirmEditedCopy(validated: Option<map<string, string>>, writes: seq<WriteOutcome>, refreshed: Option<Comparison>)
      returns (report: Option<EditedCopyReport>)
      requires |writes| == |editingSecrets|
      modifies this`editModalVisible, this`editingSecrets, this`formValues, this`selectedSecrets, this`comparison
      ensures validated.None? ==>
        report.None? && editModalVisible == old(editModalVisible)
        && editingSecrets == old(editingSecrets) && formValues == old(formValues)
        && selectedSecrets == old(selectedSecrets) && comparison == old(comparison)
      ensures validated.Some? ==>
        report.Some?
        && report.value.results == EditedOutcomes(old(editingSecrets), validated.value, writes)
        && report.value.successCount + report.value.failureCount == |old(editingSecrets)|
        && report.value.successCount == WrittenCount(writes)
        && report.value.editedCount <= report.value.successCount
      ensures validated.Some? ==>
        !editModalVisible && editingSecrets == [] && formValues == map[]
        && selectedSecrets == [] && comparison == (if CanCompare() then refreshed else old(comparison))
      ensures validated == Some(old(formValues)) && old(FormHoldsLoadedValues()) ==>
        report.Some? && report.value.editedCount == 0
      ensures old(SelectionCopyable()) ==> SelectionCopyable()
    {
      if validated.None? {
        return None;
      }
      var values := validated.value;
      editModalVisible := false;
      var results := CopyEdited(editingSecrets, values, writes);
      CountsCoverOutcomes(results);
      SuccessesAreWrites(editingSecrets, values, writes);
      EditedAmongSuccesses(editingSecrets, values, writes);
      ghost var untouched := values == formValues && FormHoldsLoadedValues();
      if untouched {
        UnchangedFormEditsNothing(editingSecrets, values, writes);
      }
      assert untouched ==> EditedCount(results) == 0;
      report := Some(EditedCopyReport(results, SuccessCount(results), FailureCount(results), EditedCount(results)));
      var _ := Compare(refreshed);
      selectedSecrets := [];
      editingSecrets := [];
      formValues := map[];
    }
  }
}

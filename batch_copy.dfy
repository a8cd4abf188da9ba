/**
 * The batch copy logic that both comparison components share: classifying the
 * server's direct-copy counts, loading the selected secrets for editing, writing
 * the edited values one by one with per-item failure isolation, and counting the
 * outcomes. The secret store is an oracle: each read and each write is given as
 * its outcome.
 */
module BatchCopy {
  import opened Wrappers

  /** A secret as the store returns it for one environment. */
  datatype SecretRecord = SecretRecord(name: string, value: string, updatedOn: int)

  /** A secret loaded for editing before it is copied. */
  datatype EditingSecret = EditingSecret(name: string, originalValue: string, editedValue: string, updatedOn: int)

  /** What one write to the target store did. */
  datatype WriteOutcome = Written | WriteFailed(message: string)

  /** The result recorded for one secret of an edited copy. */
  datatype CopyOutcome = CopyOutcome(secretName: string, success: bool, wasEdited: bool, message: string)

  /** The body the server returns for a direct copy; either count may be missing. */
  datatype CopyCounts = CopyCounts(successCount: Option<int>, failureCount: Option<int>)

  /** The direct-copy request: it threw (with the error's message) or it answered with a body that may be empty. */
  datatype CopyCall = CopyThrew(message: string) | CopyAnswered(body: Option<CopyCounts>)

  /** The three ways a batch copy is reported to the operator. */
  datatype Verdict = AllCopied | AllFailed | PartlyCopied

  /** The message shown when a write succeeds. */
  const CopiedMessage: string := "Secret copied successfully"

  // ---------------------------------------------------------------------------
  // Direct copy: the server copies, the client classifies its counts.

  /** `x || 0` on a count: a missing count reads as 0. */
  function CountOrZero(n: Option<int>): int {
    n.GetOr(0)
  }

  /**
   * The three-way report of a copy: nothing failed, nothing succeeded but
   * something failed, or a mixture.
   */
  function Classify(successCount: int, failureCount: int): (v: Verdict)
    ensures v == AllCopied <==> failureCount == 0
    ensures v == AllFailed <==> failureCount != 0 && successCount == 0
    ensures v == PartlyCopied <==> failureCount != 0 && successCount != 0
  {
    if failureCount == 0 then AllCopied
    else if successCount == 0 then AllFailed
    else PartlyCopied
  }

  /** The verdict on the server's answer to a direct copy; a missing body or count reads as 0. */
  function DirectCopyVerdict(result: Option<CopyCounts>): (v: Verdict)
    ensures result.None? ==> v == AllCopied
    ensures result.Some? && result.value.failureCount.None? ==> v == AllCopied
    ensures result.Some? && result.value.successCount.None? && CountOrZero(result.value.failureCount) != 0 ==> v == AllFailed
    ensures var s, f := if result.Some? then CountOrZero(result.value.successCount) else 0,
                        if result.Some? then CountOrZero(result.value.failureCount) else 0;
      && (v == AllCopied <==> f == 0)
      && (v == AllFailed <==> f != 0 && s == 0)
      && (v == PartlyCopied <==> f != 0 && s != 0)
  {
    if result.None? then Classify(0, 0)
    else Classify(CountOrZero(result.value.successCount), CountOrZero(result.value.failureCount))
  }

  // ---------------------------------------------------------------------------
  // Edit before copy, phase 1: load each selected secret, skipping failed reads.

  function ForEditing(r: SecretRecord): (s: EditingSecret)
    ensures s.name == r.name && s.originalValue == r.value && s.editedValue == r.value
  {
    EditingSecret(r.name, r.value, r.value, r.updatedOn)
  }

  /** The secrets loaded by a sequence of reads: one per successful read, in read order. */
  function Loaded(fetched: seq<Option<SecretRecord>>): (loaded: seq<EditingSecret>)
    ensures |loaded| <= |fetched|
    ensures (forall i :: 0 <= i < |fetched| ==> fetched[i].Some?) ==> |loaded| == |fetched|
  {
    if fetched == [] then []
    else if fetched[0].None? then Loaded(fetched[1..])
    else [ForEditing(fetched[0].value)] + Loaded(fetched[1..])
  }

  /** Number of reads that succeeded. */
  function SuccessfulReads(fetched: seq<Option<SecretRecord>>): nat
  {
    if fetched == [] then 0 else (if fetched[0].Some? then 1 else 0) + SuccessfulReads(fetched[1..])
  }

  /** Loading a batch is loading its first part and then the rest: order is kept and reads are independent. */
  lemma {:induction false} LoadedAppend(a: seq<Option<SecretRecord>>, b: seq<Option<SecretRecord>>)
    ensures Loaded(a + b) == Loaded(a) + Loaded(b)
  {
    if a == [] {
      assert a + b == b;
    } else {
      assert (a + b)[0] == a[0];
      assert (a + b)[1..] == a[1..] + b;
      LoadedAppend(a[1..], b);
    }
  }

  /**
   * One secret is loaded per successful read, each with its original and its
   * edited value equal to the value read, and nothing is loaded exactly when every
   * read failed.
   */
  lemma {:induction false} LoadedShape(fetched: seq<Option<SecretRecord>>)
    ensures |Loaded(fetched)| == SuccessfulReads(fetched) <= |fetched|
    ensures forall s :: s in Loaded(fetched) ==> s.originalValue == s.editedValue
    ensures forall s :: s in Loaded(fetched) ==> exists i :: 0 <= i < |fetched| && fetched[i] == Some(SecretRecord(s.name, s.originalValue, s.updatedOn))
    ensures |Loaded(fetched)| == 0 <==> forall i :: 0 <= i < |fetched| ==> fetched[i].None?
  {
    if fetched != [] {
      LoadedShape(fetched[1..]);
      forall s | s in Loaded(fetched)
        ensures exists i :: 0 <= i < |fetched| && fetched[i] == Some(SecretRecord(s.name, s.originalValue, s.updatedOn))
      {
        if s in Loaded(fetched[1..]) {
          var i :| 0 <= i < |fetched[1..]| && fetched[1..][i] == Some(SecretRecord(s.name, s.originalValue, s.updatedOn));
          assert fetched[i + 1] == fetched[1..][i];
        } else {
          assert fetched[0] == Some(SecretRecord(s.name, s.originalValue, s.updatedOn));
        }
      }
      if forall i :: 0 <= i < |fetched| ==> fetched[i].None? {
        assert forall i :: 0 <= i < |fetched[1..]| ==> fetched[1..][i] == fetched[i + 1];
      }
    }
  }

  /** Nothing is loaded exactly when every read failed. */
  lemma {:induction false} NothingLoadedIffAllFailed(fetched: seq<Option<SecretRecord>>)
    ensures Loaded(fetched) == [] <==> forall i :: 0 <= i < |fetched| ==> fetched[i].None?
  {
    if fetched != [] {
      NothingLoadedIffAllFailed(fetched[1..]);
      assert forall i :: 0 <= i < |fetched[1..]| ==> fetched[1..][i] == fetched[i + 1];
    }
  }

  /**
   * The load loop: reads the selected names one at a time, in selection order,
   * and keeps what each successful read returned; a failed read is skipped.
   * `fetched[i]` is the store's answer for `selected[i]`.
   */
  method LoadSelected(selected: seq<string>, fetched: seq<Option<SecretRecord>>) returns (loaded: seq<EditingSecret>)
    requires |fetched| == |selected|
    ensures loaded == Loaded(fetched)
  {
    loaded := [];
    var i := 0;
    while i < |selected|
      invariant 0 <= i <= |selected|
      invariant loaded == Loaded(fetched[..i])
    {
      var data := fetched[i];
      assert fetched[..i + 1] == fetched[..i] + [data];
      LoadedAppend(fetched[..i], [data]);
      if data.Some? {
        loaded := loaded + [ForEditing(data.value)];
      }
      i := i + 1;
    }
    assert fetched[..i] == fetched;
  }

  /**
   * The edit form's initial values: each loaded secret's name mapped to the value
   * loaded for it; when two loaded secrets share a name the later one wins.
   */
  function InitialValues(loaded: seq<EditingSecret>): (values: map<string, string>)
    ensures values.Keys == set s | s in loaded :: s.name
  {
    if loaded == [] then map[]
    else
      var last := loaded[|loaded| - 1];
      assert loaded == loaded[..|loaded| - 1] + [last];
      InitialValues(loaded[..|loaded| - 1])[last.name := last.originalValue]
  }

  /** Every initial value is the value loaded for a secret of that name. */
  lemma {:induction false} InitialValuesComeFromLoaded(loaded: seq<EditingSecret>, name: string)
    requires name in InitialValues(loaded)
    ensures exists s :: s in loaded && s.name == name && InitialValues(loaded)[name] == s.originalValue
  {
    var n := |loaded| - 1;
    if loaded[n].name != name {
      var earlier := loaded[..n];
      assert name in InitialValues(earlier);
      InitialValuesComeFromLoaded(earlier, name);
      var s :| s in earlier && s.name == name && InitialValues(earlier)[name] == s.originalValue;
      assert s in loaded;
    }
  }

  /** No two loaded secrets share a name. */
  predicate NamesDistinct(loaded: seq<EditingSecret>) {
    forall i, j :: 0 <= i < j < |loaded| ==> loaded[i].name != loaded[j].name
  }

  /** With distinct names, the form starts out holding exactly each secret's loaded value. */
  lemma InitialValuesHoldLoaded(loaded: seq<EditingSecret>)
    requires NamesDistinct(loaded)
    ensures forall s :: s in loaded ==> InitialValues(loaded)[s.name] == s.originalValue
  {
    forall s | s in loaded ensures InitialValues(loaded)[s.name] == s.originalValue {
      var i :| 0 <= i < |loaded| && loaded[i] == s;
      InitialValueAt(loaded, i);
    }
  }

  /** The value the form starts with for the i-th loaded secret, when names are distinct. */
  lemma {:induction false} InitialValueAt(loaded: seq<EditingSecret>, i: nat)
    requires NamesDistinct(loaded) && i < |loaded|
    ensures InitialValues(loaded)[loaded[i].name] == loaded[i].originalValue
  {
    var n := |loaded| - 1;
    if i < n {
      var earlier := loaded[..n];
      assert earlier[i] == loaded[i];
      assert loaded[i].name != loaded[n].name;
      InitialValueAt(earlier, i);
    }
  }

  /**
   * Handing the initial values to a form that already holds other fields: with
   * distinct names every loaded secret's field holds the value loaded for it.
   */
  lemma FormReceivesLoaded(form: map<string, string>, loaded: seq<EditingSecret>)
    requires NamesDistinct(loaded)
    ensures forall s :: s in loaded ==>
      s.name in form + InitialValues(loaded) && (form + InitialValues(loaded))[s.name] == s.originalValue
  {
    InitialValuesHoldLoaded(loaded);
  }

  // ---------------------------------------------------------------------------
  // Edit before copy, phase 2: write each loaded secret's form value to the target.

  /**
   * The outcome of writing one loaded secret. `edited` is the form's value for
   * its name (absent when the form has no such field); the copy counts as edited
   * only when the write succeeded and the value differs from the original.
   */
  function OutcomeOf(secret: EditingSecret, edited: Option<string>, write: WriteOutcome): (o: CopyOutcome)
    ensures o.secretName == secret.name
    ensures o.success <==> write.Written?
    ensures o.wasEdited <==> write.Written? && edited != Some(secret.originalValue)
  {
    match write
    case Written => CopyOutcome(secret.name, true, edited != Some(secret.originalValue), CopiedMessage)
    case WriteFailed(message) => CopyOutcome(secret.name, false, false, message)
  }

  function FormValue(values: map<string, string>, name: string): Option<string> {
    if name in values then Some(values[name]) else None
  }

  /** One outcome per loaded secret, in the same order; `writes[i]` is the store's answer for the i-th write. */
  function EditedOutcomes(editing: seq<EditingSecret>, values: map<string, string>, writes: seq<WriteOutcome>): (results: seq<CopyOutcome>)
    requires |writes| == |editing|
    ensures |results| == |editing|
    ensures forall i :: 0 <= i < |editing| ==>
      results[i] == OutcomeOf(editing[i], FormValue(values, editing[i].name), writes[i])
  {
    if editing == [] then []
    else
      [OutcomeOf(editing[0], FormValue(values, editing[0].name), writes[0])]
        + EditedOutcomes(editing[1..], values, writes[1..])
  }

  /**
   * The per-secret writes of an edited copy, one after the other. Each write's
   * failure is caught and recorded for that secret alone.
   */
  method CopyEdited(editing: seq<EditingSecret>, values: map<string, string>, writes: seq<WriteOutcome>)
    returns (results: seq<CopyOutcome>)
    requires |writes| == |editing|
    ensures results == EditedOutcomes(editing, values, writes)
  {
    results := [];
    var i := 0;
    while i < |editing|
      invariant 0 <= i <= |editing|
      invariant |results| == i
      invariant forall k :: 0 <= k < i ==> results[k] == OutcomeOf(editing[k], FormValue(values, editing[k].name), writes[k])
    {
      var secret := editing[i];
      results := results + [OutcomeOf(secret, FormValue(values, secret.name), writes[i])];
      i := i + 1;
    }
    ghost var expected := EditedOutcomes(editing, values, writes);
    assert forall k :: 0 <= k < |editing| ==> results[k] == expected[k];
  }

  /** `results.filter(r => r.success).length` */
  function SuccessCount(results: seq<CopyOutcome>): (n: nat)
    ensures n <= |results|
  {
    if results == [] then 0 else (if results[0].success then 1 else 0) + SuccessCount(results[1..])
  }

  /** `results.filter(r => !r.success).length` */
  function FailureCount(results: seq<CopyOutcome>): (n: nat)
    ensures n <= |results|
  {
    if results == [] then 0 else (if results[0].success then 0 else 1) + FailureCount(results[1..])
  }

  /** `results.filter(r => r.wasEdited).length` */
  function EditedCount(results: seq<CopyOutcome>): (n: nat)
    ensures n <= |results|
  {
    if results == [] then 0 else (if results[0].wasEdited then 1 else 0) + EditedCount(results[1..])
  }

  /** Every outcome is counted exactly once, as a success or as a failure. */
  lemma {:induction false} CountsCoverOutcomes(results: seq<CopyOutcome>)
    ensures SuccessCount(results) + FailureCount(results) == |results|
  {
    if results != [] {
      CountsCoverOutcomes(results[1..]);
    }
  }

  /** Edited copies are counted among the successes: an outcome is marked edited only when it succeeded. */
  lemma {:induction false} EditedAmongSuccesses(editing: seq<EditingSecret>, values: map<string, string>, writes: seq<WriteOutcome>)
    requires |writes| == |editing|
    ensures EditedCount(EditedOutcomes(editing, values, writes)) <= SuccessCount(EditedOutcomes(editing, values, writes))
  {
    if editing != [] {
      EditedAmongSuccesses(editing[1..], values, writes[1..]);
    }
  }

  /** When every form value repeats the value loaded for it, no copy counts as edited. */
  lemma {:induction false} UnchangedFormEditsNothing(editing: seq<EditingSecret>, values: map<string, string>, writes: seq<WriteOutcome>)
    requires |writes| == |editing|
    requires forall s :: s in editing ==> s.name in values && values[s.name] == s.originalValue
    ensures EditedCount(EditedOutcomes(editing, values, writes)) == 0
  {
    if editing != [] {
      assert editing[0] in editing;
      UnchangedFormEditsNothing(editing[1..], values, writes[1..]);
    }
  }

  /** The number of successes is the number of writes that went through. */
  lemma {:induction false} SuccessesAreWrites(editing: seq<EditingSecret>, values: map<string, string>, writes: seq<WriteOutcome>)
    requires |writes| == |editing|
    ensures SuccessCount(EditedOutcomes(editing, values, writes)) == WrittenCount(writes)
  {
    if editing != [] {
      SuccessesAreWrites(editing[1..], values, writes[1..]);
    }
  }

  function WrittenCount(writes: seq<WriteOutcome>): nat {
    if writes == [] then 0 else (if writes[0].Written? then 1 else 0) + WrittenCount(writes[1..])
  }

  /**
   * Classifying the counts of a list of outcomes: all copied exactly when none
   * failed, all failed exactly when the list is non-empty and none succeeded.
   */
  lemma {:induction false} VerdictOfOutcomes(results: seq<CopyOutcome>)
    ensures Classify(SuccessCount(results), FailureCount(results)) == AllCopied
      <==> forall i :: 0 <= i < |results| ==> results[i].success
    ensures Classify(SuccessCount(results), FailureCount(results)) == AllFailed
      <==> results != [] && forall i :: 0 <= i < |results| ==> !results[i].success
  {
    if results != [] {
      VerdictOfOutcomes(results[1..]);
      assert forall i :: 1 <= i < |results| ==> results[i] == results[1..][i - 1];
      CountsCoverOutcomes(results[1..]);
    }
  }
}

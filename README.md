# Secret vault web client — verified model of the sync workflow

This project models the client-side logic of a web front end for a secret store spread over several environments (one Azure Key Vault each). The client compares two environments and copies secrets from the source to the target.

The comparison screen exists in two copies:

- a single-file screen, `EnvironmentComparison.js`, which is the one the application loads;
- a refactored component, `EnvironmentComparison/index.js`, with its helpers in `utils/`.

Both copies are modelled, as classes whose fields are the screen's state and whose methods are its handlers. Where the copies differ, the two models differ in the same way.

What is modelled:

- **The comparison table** (`ComparisonHelpers`). The three name lists from the server become status-tagged rows in a fixed group order. A case-insensitive substring filter is applied. The copyable names are the source-only names plus the in-both names. The model also covers the environment lookups and the export report.
- **Copying** (`BatchCopy`):
  - the three-way verdict of a direct copy;
  - loading each selected secret in turn, skipping failed reads;
  - writing each edited value with per-secret failure isolation;
  - the success, failure and edited counts.
- **The two screens** (`ComparisonComponent` and `ComparisonMonolith`). The state machine covers:
  - the source and target environments;
  - the comparison;
  - the selection;
  - the copy confirmation and the edit dialog.
- **The Azure CLI script** (`AzureCli`):
  - the vault name taken from a Key Vault URL;
  - PowerShell single-quote escaping;
  - one numbered `secret set` block per secret.
- **The version history dialog**:
  - how old a version is, and how a version id is shortened (`VersionHistory`);
  - the row rules and the order of the requests a restore makes (`VersionHistoryPanel`).
- **The avatar initials** (`UserProfile`).

The secret store is treated as an oracle:

- A read is an `Option` that is absent when the request failed.
- A write is a `WriteOutcome`.
- A list request is an `Option` or a `...Threw` case.
- The current time and the locale's date formatting are parameters.
- An unset environment id is the empty string, which is falsy like the `null` the screens use.
- Case mapping is ASCII-only (`Text.Lower`, `Text.Upper`).
- JavaScript `substring` is modelled with its clamping and argument swap (`Text.Substring`).

## Model

| member | source | states |
|---|---|---|
| ComparisonHelpers.Tagged | src/components/EnvironmentComparison/utils/comparisonHelpers.js:38-51 | one row per name, same order, each keyed `source-`/`both-`/`target-` plus the name for its status |
| ComparisonHelpers.AllRowsLayout | src/components/EnvironmentComparison/utils/comparisonHelpers.js:38-51 | the unfiltered table has the three lengths added together, holding the source-only group, then in-both, then target-only, each tagged and in server order |
| ComparisonHelpers.AllRows | src/components/EnvironmentComparison/utils/comparisonHelpers.js:38-51 | the unfiltered table has one row per name of the three lists |
| ComparisonHelpers.FilterRows | src/components/EnvironmentComparison/utils/comparisonHelpers.js:54-56 | keeps exactly the rows whose lower-cased name contains the lower-cased term, as an order-preserving subsequence, each matching row as often as it occurs in the input and no other row |
| ComparisonHelpers.FilterNames | src/components/EnvironmentComparison/utils/comparisonHelpers.js:68-70 | the same filter on names: an order-preserving subsequence holding each matching name as often as the input does and no other name |
| ComparisonHelpers.TableData | src/components/EnvironmentComparison/utils/comparisonHelpers.js:33-59 | no comparison gives no rows; the empty term gives all rows; otherwise a subsequence of all rows holding each matching row as often as all rows do, and nothing else |
| ComparisonHelpers.PushGroup | src/components/EnvironmentComparison/utils/comparisonHelpers.js:39-41 | the push loop appends one tagged row per name, in order |
| ComparisonHelpers.PrepareTableData | src/components/EnvironmentComparison/utils/comparisonHelpers.js:33-59 | the three push loops plus the filter compute exactly the table |
| ComparisonHelpers.FilterRowsAppend | src/components/EnvironmentComparison/utils/comparisonHelpers.js:54-56 | filtering distributes over concatenation |
| ComparisonHelpers.FilterRowsEmptyTerm | src/components/EnvironmentComparison/utils/comparisonHelpers.js:54 | filtering with the empty term keeps every row, so the `if (searchTerm)` guard changes nothing |
| ComparisonHelpers.TableDataIsFilter | src/components/EnvironmentComparison/utils/comparisonHelpers.js:33-59 | whatever the term, the table is the filter of the unfiltered rows |
| ComparisonHelpers.TableRowsWellKeyed | src/components/EnvironmentComparison/utils/comparisonHelpers.js:40-50 | every row shown carries the key prefix of its own status |
| ComparisonHelpers.CopyableSecrets | src/components/EnvironmentComparison/utils/comparisonHelpers.js:64-72 | no comparison gives []; otherwise a subsequence of source-only plus in-both holding each matching name as often as that list does, and nothing else; equal to it for the empty term |
| ComparisonHelpers.CopyableExcludesTargetOnly | src/components/EnvironmentComparison/utils/comparisonHelpers.js:67 | when the server's lists are disjoint, no copyable name is target-only |
| ComparisonHelpers.SelectableOfFilteredGroup | src/components/EnvironmentComparison.js:375 | the enabled rows of a filtered group are the filtered names, or none for the target-only group |
| ComparisonHelpers.SelectableNames | src/components/EnvironmentComparison.js:375 | the rows whose checkbox is enabled: never more names than rows, and every row that is not target-only contributes its name |
| ComparisonHelpers.CopyableAreSelectableRows | src/components/EnvironmentComparison/utils/comparisonHelpers.js:64-72 | the copyable names are exactly the names of the rows on show whose checkbox is enabled, in table order |
| ComparisonHelpers.ShownRowIsCopyable | src/components/EnvironmentComparison.js:368-375 | a row on show that is not target-only has a copyable name |
| ComparisonHelpers.Without | src/components/EnvironmentComparison/index.js:116 | removing a name drops every occurrence and keeps the other names in order; the length falls by the number of occurrences |
| ComparisonHelpers.GetEnvironment | src/components/EnvironmentComparison/utils/comparisonHelpers.js:26-28 | absent exactly when no environment has the id; otherwise the first environment with that id |
| ComparisonHelpers.EnvironmentName | src/components/EnvironmentComparison/utils/comparisonHelpers.js:19-21 | the id itself when no environment has it; otherwise the first matching environment's name when it is non-empty, else the id |
| ComparisonHelpers.EnvironmentColor | src/components/EnvironmentComparison/utils/comparisonHelpers.js:12-14 | `#1890ff` when no environment has the id; otherwise the first matching environment's colour when it is non-empty, else `#1890ff` |
| ComparisonHelpers.FirstMatchIsFound | src/components/EnvironmentComparison/utils/comparisonHelpers.js:26-28 | the environment with the id that has no earlier one with it is the one `find` returns |
| ComparisonHelpers.EnvironmentNameOfFirstMatch | src/components/EnvironmentComparison/utils/comparisonHelpers.js:12-28 | the first matching environment decides the name and the colour; an empty name or colour falls back |
| ComparisonHelpers.ExportReport | src/components/EnvironmentComparison/utils/comparisonHelpers.js:77-95 | the report records both ids with their resolved names |
| ComparisonHelpers.ReportKeepsComparison | src/components/EnvironmentComparison/utils/comparisonHelpers.js:81-95 | the report renames the lists and keeps the summary; the comparison can be read back unchanged |
| BatchCopy.Classify | src/components/EnvironmentComparison/index.js:193-200 | all copied iff no failure; all failed iff failures and no success; partial otherwise |
| BatchCopy.DirectCopyVerdict | src/components/EnvironmentComparison/index.js:191-200 | with a missing body or count read as 0: all copied iff the failure count is 0; all failed iff failures and no success; partly copied iff both are non-zero |
| BatchCopy.ForEditing | src/components/EnvironmentComparison/index.js:229-234 | a loaded secret keeps its name, and its original and edited values are both the fetched value |
| BatchCopy.LoadedAppend | src/components/EnvironmentComparison/index.js:226-238 | loading distributes over concatenation of the reads |
| BatchCopy.Loaded | src/components/EnvironmentComparison/index.js:226-238 | never more secrets than reads, and one per read when every read succeeds |
| BatchCopy.LoadedShape | src/components/EnvironmentComparison/index.js:226-238 | one loaded secret per successful read, never more than the reads, each one equal to a fetched record; none loaded iff every read failed |
| BatchCopy.NothingLoadedIffAllFailed | src/components/EnvironmentComparison/index.js:240-243 | nothing is loaded exactly when every read failed |
| BatchCopy.LoadSelected | src/components/EnvironmentComparison/index.js:224-238 | the `for…of` load loop computes exactly the loaded secrets, in selection order |
| BatchCopy.InitialValues | src/components/EnvironmentComparison/index.js:250-254 | the form's keys are exactly the loaded names |
| BatchCopy.InitialValuesComeFromLoaded | src/components/EnvironmentComparison/index.js:250-254 | every initial value is the value loaded for a secret of that name |
| BatchCopy.InitialValuesHoldLoaded | src/components/EnvironmentComparison/index.js:250-254 | when the names are distinct, each loaded secret's field holds its loaded value |
| BatchCopy.FormReceivesLoaded | src/components/EnvironmentComparison/index.js:250-255 | merged into a form that already has fields, each loaded field still holds its loaded value |
| BatchCopy.OutcomeOf | src/components/EnvironmentComparison/index.js:277-297 | success iff the write succeeded; edited iff it succeeded and the form value differs from the original |
| BatchCopy.EditedOutcomes | src/components/EnvironmentComparison/index.js:277-298 | one outcome per secret being edited, in order |
| BatchCopy.CopyEdited | src/components/EnvironmentComparison/index.js:277-298 | the write loop yields exactly those outcomes |
| BatchCopy.CountsCoverOutcomes | src/components/EnvironmentComparison/index.js:300-301 | success count plus failure count is the number of outcomes |
| BatchCopy.SuccessCount | src/components/EnvironmentComparison/index.js:300 | `filter(r => r.success).length`: at most the number of outcomes |
| BatchCopy.FailureCount | src/components/EnvironmentComparison/index.js:301 | `filter(r => !r.success).length`: at most the number of outcomes |
| BatchCopy.EditedCount | src/components/EnvironmentComparison/index.js:302 | `filter(r => r.wasEdited).length`: at most the number of outcomes |
| BatchCopy.EditedAmongSuccesses | src/components/EnvironmentComparison/index.js:300-302 | the edited count never exceeds the success count |
| BatchCopy.SuccessesAreWrites | src/components/EnvironmentComparison/index.js:300 | the success count is the number of writes the store accepted |
| BatchCopy.UnchangedFormEditsNothing | src/components/EnvironmentComparison/index.js:278-292 | a form left as loaded gives an edited count of 0 |
| BatchCopy.VerdictOfOutcomes | src/components/EnvironmentComparison/index.js:300-304 | classifying the counts of the outcomes gives all copied iff every write succeeded (the success message), and all failed iff there were writes and none succeeded |
| ComparisonComponent.EnvironmentComparison.constructor | src/components/EnvironmentComparison/index.js:28-46 | the initial state: no environments, nothing selected, dialogs closed |
| ComparisonComponent.EnvironmentComparison.LoadEnvironments | src/components/EnvironmentComparison/index.js:61-74 | stores the list; with at least two environments, picks the first as source and the second as target; a failed fetch changes nothing |
| ComparisonComponent.EnvironmentComparison.SetSourceEnv | src/components/EnvironmentComparison/index.js:29 | sets the source and nothing else |
| ComparisonComponent.EnvironmentComparison.SetTargetEnv | src/components/EnvironmentComparison/index.js:30 | sets the target and nothing else |
| ComparisonComponent.EnvironmentComparison.SetSearchTerm | src/components/EnvironmentComparison/index.js:36 | sets the search term and nothing else |
| ComparisonComponent.EnvironmentComparison.Compare | src/components/EnvironmentComparison/index.js:76-102 | requests iff both environments are set and differ; a request clears the selection and sets the answer (absent on failure); otherwise nothing changes |
| ComparisonComponent.EnvironmentComparison.Swap | src/components/EnvironmentComparison/index.js:104-110 | exchanges source and target and clears the comparison and the selection |
| ComparisonComponent.EnvironmentComparison.SwapTwice | src/components/EnvironmentComparison/index.js:104-110 | two swaps restore the original pair |
| ComparisonComponent.EnvironmentComparison.SecretSelect | src/components/EnvironmentComparison/index.js:112-118 | ticking appends the name; unticking removes every occurrence; the selection stays copyable |
| ComparisonComponent.EnvironmentComparison.SelectAll | src/components/EnvironmentComparison/index.js:120-123 | the selection becomes the names of the enabled rows on show, or [] without a comparison |
| ComparisonComponent.EnvironmentComparison.DeselectAll | src/components/EnvironmentComparison/index.js:125-127 | the selection becomes [] |
| ComparisonComponent.EnvironmentComparison.Export | src/components/EnvironmentComparison/index.js:129-136 | no report without a comparison; otherwise exactly `ExportReport` of the comparison: both ids, each named after its first matching environment or else by the id, and the comparison read back unchanged |
| ComparisonComponent.EnvironmentComparison.DirectCopy | src/components/EnvironmentComparison/index.js:155-173 | the confirmation opens iff the selection is non-empty, holding a copy of it and both environments with their names |
| ComparisonComponent.EnvironmentComparison.ConfirmDirectCopy | src/components/EnvironmentComparison/index.js:175-211 | nothing without a pending request; the dialog closes; a thrown copy changes nothing else; an answer is classified, the comparison is requested again and the selection is cleared |
| ComparisonComponent.EnvironmentComparison.EditBeforeCopy | src/components/EnvironmentComparison/index.js:214-268 | the dialog opens iff some read succeeded; it then holds the loaded secrets and the form their values; otherwise nothing changes |
| ComparisonComponent.EnvironmentComparison.ConfirmEditedCopy | src/components/EnvironmentComparison/index.js:270-333 | an invalid form changes nothing; otherwise the outcomes are the per-secret writes, success plus failure is the number of secrets, edited ≤ success, an untouched form edits nothing, and the edit state and selection are cleared |
| ComparisonMonolith.FoundName | src/components/EnvironmentComparison.js:319-320 | none when no environment has the id; otherwise exactly the name of the first environment with it, which may be missing, with no fallback |
| ComparisonMonolith.MonolithReport | src/components/EnvironmentComparison.js:313-350 | the single-file report records both ids, each with the name `FoundName` gives for it and no fallback to the id, and reads back as the comparison |
| ComparisonMonolith.ReportsDifferOnlyInNames | src/components/EnvironmentComparison.js:313-350 | the two screens' reports agree except for the environment names; on each side the names agree for a found non-empty name, and for an unknown environment the single-file report has none where the helper's has the id |
| ComparisonMonolith.WithValues | src/components/EnvironmentComparison.js:488-499 | at most one secret per read |
| ComparisonMonolith.WithValuesAppend | src/components/EnvironmentComparison.js:488-499 | the secrets read distribute over concatenation of the reads |
| ComparisonMonolith.WithValuesComplete | src/components/EnvironmentComparison.js:488-499 | every selected secret is in the script iff every read succeeded |
| ComparisonMonolith.CollectWithValues | src/components/EnvironmentComparison.js:488-499 | the read loop computes exactly the secrets read, in order |
| ComparisonMonolith.AppendSecretBlocks | src/components/EnvironmentComparison.js:521-531 | the command loop appends exactly one numbered block per secret |
| ComparisonMonolith.MonolithHeaderCount | src/components/EnvironmentComparison.js:507-515 | the header's copy count equals the number of blocks iff every selected secret was read; apart from that count the script equals the helper's |
| ComparisonMonolith.MonolithScript | src/components/EnvironmentComparison.js:500-531 | n+2 parts: the header with n secrets and the selected count as its copy count, the blocks, and the footer last |
| ComparisonMonolith.MonolithHeaderOvercounts | src/components/EnvironmentComparison.js:515 | two selected and one read: the header announces 2 copies over 1 block |
| ComparisonMonolith.EnvironmentComparison.constructor | src/components/EnvironmentComparison.js:28-55 | the initial state: no environments, nothing selected, dialogs closed |
| ComparisonMonolith.EnvironmentComparison.LoadEnvironments | src/components/EnvironmentComparison.js:60-73 | stores the list and picks the first two environments as source and target |
| ComparisonMonolith.EnvironmentComparison.SetSourceEnv | src/components/EnvironmentComparison.js:765 | the source selector sets the source environment only |
| ComparisonMonolith.EnvironmentComparison.SetTargetEnv | src/components/EnvironmentComparison.js:801 | the target selector sets the target environment only |
| ComparisonMonolith.EnvironmentComparison.SetSearchTerm | src/components/EnvironmentComparison.js:35 | sets the search term and nothing else |
| ComparisonMonolith.EnvironmentComparison.Compare | src/components/EnvironmentComparison.js:75-101 | the same guards and clearing as the component copy |
| ComparisonMonolith.EnvironmentComparison.ToggleRow | src/components/EnvironmentComparison.js:368-375 | ticking appends, unticking removes every occurrence; the checkbox of a target-only row is disabled; ticking a row on show keeps the selection copyable |
| ComparisonMonolith.EnvironmentComparison.GetTableData | src/components/EnvironmentComparison.js:420-445 | exactly the table of the helper, with every row keyed for its status |
| ComparisonMonolith.EnvironmentComparison.SelectAll | src/components/EnvironmentComparison.js:447-461 | no change without a comparison; otherwise the names of the enabled rows on show |
| ComparisonMonolith.EnvironmentComparison.DeselectAll | src/components/EnvironmentComparison.js:463-465 | the selection becomes [] |
| ComparisonMonolith.EnvironmentComparison.Swap | src/components/EnvironmentComparison.js:305-311 | exchanges the environments and clears the comparison and the selection |
| ComparisonMonolith.EnvironmentComparison.Export | src/components/EnvironmentComparison.js:313-350 | no report without a comparison; otherwise exactly `MonolithReport`: both ids, each with the first matching environment's name (`FoundName`, none for an unknown id), and the comparison read back unchanged |
| ComparisonMonolith.EnvironmentComparison.CopySelected | src/components/EnvironmentComparison.js:234-254 | the confirmation opens iff the selection is non-empty, with both names falling back to the id |
| ComparisonMonolith.EnvironmentComparison.ConfirmCopyModal | src/components/EnvironmentComparison.js:256-303 | nothing without a pending request; a thrown copy only closes the dialog; an answer is classified (missing counts read as 0), the comparison is requested again, and the selection and the request are cleared |
| ComparisonMonolith.EnvironmentComparison.EditBeforeCopy | src/components/EnvironmentComparison.js:118-165 | the dialog opens iff the selection is non-empty, even when every read failed, holding the loaded secrets and their values |
| ComparisonMonolith.EnvironmentComparison.ConfirmEditedCopy | src/components/EnvironmentComparison.js:167-231 | success plus failure is the number of secrets, edited ≤ success, and the selection and the edit state are cleared |
| ComparisonMonolith.EnvironmentComparison.TargetVaultName | src/components/EnvironmentComparison.js:482-485 | the default for an unknown target environment; otherwise the vault name of its URL under the rule of `AzureCli.IsVaultName` (the text after the first `//`, up to the first `.` or `//`, or the default when that is empty) |
| ComparisonMonolith.EnvironmentComparison.GenerateAzCliCommands | src/components/EnvironmentComparison.js:472-531 | nothing for an empty selection; otherwise the header, one block per secret read, and the footer, with the header's copy count taken from the selection |
| AzureCli.VaultNameOr | src/components/EnvironmentComparison/utils/azureCliGenerator.js:119-122 | non-empty with no `.` or `//`; the fallback for a falsy URL, for one with no `//`, and when the text after the first `//` is empty or starts with `.` or `//`; otherwise the prefix of that text that ends at its end, its first `.` or its first `//` |
| AzureCli.CutAtFirst | src/components/EnvironmentComparison/utils/azureCliGenerator.js:121 | `split(sub)[0]`: a prefix without `sub` that is the whole string when `sub` does not occur and otherwise ends exactly at the first occurrence |
| AzureCli.ExtractVaultName | src/components/EnvironmentComparison/utils/azureCliGenerator.js:119-122 | never empty, no `.` or `//`, and the vault name of the URL by the same rule as `VaultNameOr`, with `your-keyvault-name` as the fallback |
| AzureCli.CutsGiveHostPart | src/components/EnvironmentComparison/utils/azureCliGenerator.js:121 | cutting at the first `//` and then at the first `.` leaves nothing exactly when the text is empty or starts with `.` or `//`, and otherwise leaves its host part |
| AzureCli.HostPartUnique | src/components/EnvironmentComparison/utils/azureCliGenerator.js:121 | at most one string is the host part of a text, so the rule fixes the vault name |
| AzureCli.VaultNameUnique | src/components/EnvironmentComparison/utils/azureCliGenerator.js:119-122 | at most one name meets the vault-name rule for a URL and fallback |
| AzureCli.DefaultHasNoSeparators | src/components/EnvironmentComparison/utils/azureCliGenerator.js:120 | the default `your-keyvault-name` has no `.` or `//` |
| AzureCli.VaultNameIsHost | src/components/EnvironmentComparison/utils/azureCliGenerator.js:121 | for `scheme//host.domain` with no `//` in the domain the vault name is the host; a trailing slash or path is allowed, e.g. `myvault` for `https://myvault.vault.azure.net/` |
| AzureCli.EscapeLength | src/components/EnvironmentComparison/utils/azureCliGenerator.js:24 | the escaped length is the original length plus the number of quotes |
| AzureCli.Escape | src/components/EnvironmentComparison/utils/azureCliGenerator.js:24 | the escaped value is never shorter, and a value without quotes is unchanged |
| AzureCli.UnescapeEscape | src/components/EnvironmentComparison/utils/azureCliGenerator.js:24 | collapsing each doubled ASCII quote gives back the original value |
| AzureCli.SetCountOfBlocks | src/components/EnvironmentComparison/utils/azureCliGenerator.js:23-33 | there is one `secret set` command per secret |
| AzureCli.Script | src/components/EnvironmentComparison/utils/azureCliGenerator.js:4-33 | n+2 parts: the header counting n secrets twice, the blocks, and the footer last |
| AzureCli.GenerateCommands | src/components/EnvironmentComparison/utils/azureCliGenerator.js:4-33 | the `forEach` builds the header, the blocks in order and the footer, with both header counts equal to the number of secrets |
| AzureCli.ScriptAgreesWithSecrets | src/components/EnvironmentComparison/utils/azureCliGenerator.js:10-33 | the script has n+2 parts; both header counts equal the number of `secret set` commands; block i is numbered i+1 with the secret's name and a value that unescapes, under ASCII quoting, to the secret's value |
| VersionHistory.DiffDays | src/components/SecretVersionHistory/utils.js:22-25 | the whole days elapsed, rounded down, also for a date in the future |
| VersionHistory.AgeOfDays | src/components/SecretVersionHistory/utils.js:27-32 | today iff 0, yesterday iff 1, days iff below 7 (negatives included), weeks 1..4 for 7-29, months 1..12 for 30-364, years ≥ 1 from 365; each count rounded down |
| VersionHistory.VersionAge | src/components/SecretVersionHistory/utils.js:20-33 | blank iff the date is missing; "NaN years ago" iff it does not parse; otherwise the bucket of the days elapsed |
| VersionHistory.WithinADayIsToday | src/components/SecretVersionHistory/utils.js:25-27 | a version less than a day old shows as today |
| VersionHistory.AgeText | src/components/SecretVersionHistory/utils.js:21-32 | the text is empty iff the age is blank |
| VersionHistory.TruncateVersion | src/components/SecretVersionHistory/utils.js:38-41 | "" for a missing id; otherwise the first `length` characters (clamped) followed by `...` |
| VersionHistory.TruncateLongEnough | src/components/SecretVersionHistory/utils.js:40 | a length covering the id shows the whole id followed by `...` |
| VersionHistory.FormatDate | src/components/SecretVersionHistory/utils.js:4-15 | `N/A` for a missing date; otherwise the locale's rendering |
| VersionHistoryPanel.VersionCell | src/components/SecretVersionHistory.js:128 | the first 8 characters (clamped) followed by `...` |
| VersionHistoryPanel.CellMatchesTruncate | src/components/SecretVersionHistory.js:128 | the cell equals `truncateVersion` at length 8 for every non-empty id; for "" it shows `...` where `truncateVersion` gives "" |
| VersionHistoryPanel.ListedRows | src/components/SecretVersionHistory.js:125-133 | over the whole list, only the newest version is CURRENT and every other version offers a restore |
| VersionHistoryPanel.RowAt | src/components/SecretVersionHistory.js:125-133 | the row handed index 0 is CURRENT, exactly the others offer a restore, and the cells show the shortened id and the age |
| VersionHistoryPanel.PageOf | src/components/SecretVersionHistory.js:272 | at most 10 versions, none exactly when the page starts past the list, the k-th being version `10 * page + k` |
| VersionHistoryPanel.PageRows | src/components/SecretVersionHistory.js:272 | each page has at most 10 rows, built from the index within the page |
| VersionHistoryPanel.FirstPageIsListed | src/components/SecretVersionHistory.js:272 | on the first page the rows shown are the listed rows |
| VersionHistoryPanel.SecondPageTagsOldVersionCurrent | src/components/SecretVersionHistory.js:130 | with 11 versions, page 2 shows the 11th version as CURRENT with no restore, unlike the listed rows |
| VersionHistoryPanel.AppendNotificationKeepsOrder | src/components/SecretVersionHistory.js:70-88 | a restore request, then a reload, then a notification keeps every notification after a reload of a restore of the same secret |
| VersionHistoryPanel.SecretVersionHistory.constructor | src/components/SecretVersionHistory.js:28-33 | the dialog starts with no versions and no requests |
| VersionHistoryPanel.SecretVersionHistory.LoadVersions | src/components/SecretVersionHistory.js:41-53 | requests the list; a thrown request keeps the list; an answer without versions gives [] |
| VersionHistoryPanel.SecretVersionHistory.RestoreVersion | src/components/SecretVersionHistory.js:70-89 | on success: restore, then reload, then notify when a callback is given; on failure: only the restore request, nothing reloaded or notified |
| UserProfile.Split | src/components/UserProfile.js:58 | at least one piece, none containing a space |
| UserProfile.JoinSplit | src/components/UserProfile.js:58 | joining the pieces with spaces gives back the name |
| UserProfile.WordStarts | src/components/UserProfile.js:57-61 | the independent reference: the characters that start a word contain no space |
| UserProfile.FirstCharsAreWordStarts | src/components/UserProfile.js:58-60 | the pieces' first characters are exactly the characters starting a word, so empty pieces contribute nothing |
| UserProfile.FirstChars | src/components/UserProfile.js:58-60 | at most one character per piece, and exactly one when no piece is empty |
| UserProfile.Initials | src/components/UserProfile.js:55-63 | `D` for a falsy name; never more than 2 characters |
| UserProfile.InitialsOfName | src/components/UserProfile.js:57-62 | the result is the first two word-start characters, upper-cased, in order |
| UserProfile.SingleWordInitial | src/components/UserProfile.js:57-62 | a single word gives exactly its first character, upper-cased |
| UserProfile.SpacesHaveNoInitials | src/components/UserProfile.js:57-62 | a name made only of spaces gives empty initials |

## Left out

- Every request to the server. `src/services/api.js` is not part of this model, and its answers are the parameters named above. The server computes the comparison itself. Its disjointness is stated only as a precondition of `ComparisonHelpers.CopyableExcludesTargetOnly`.
- The API client defines no request for listing, reading or restoring secret versions. The version dialog's requests are modelled as the calls the dialog makes, with their answers as parameters.
- Loading, copying and restoring flags. Toasts and console output.
- The secret preview drawer and the version detail view.
- The script's download and clipboard, including the single-file screen's `keyvault` download name.
- The refactored component's `handleGenerateAzCli`. It calls the helper modelled by `AzureCli.GenerateCommands`.
- The fixed boilerplate text of the CLI script and its generation timestamp. `AzureCli.Segment` keeps only what varies.
- The export report's `comparedAt` timestamp (`comparisonHelpers.js:82`, `EnvironmentComparison.js:323`). It comes from the clock, so `ComparisonHelpers.ExportReport` and `ComparisonMonolith.MonolithReport` leave that field out.
- Locale date formatting. It is the `localized` parameter of `VersionHistory.FormatDate`. The inline copy in `SecretVersionHistory.js:91-102` is identical, and so is the inline `getVersionAge` at `:104-117`; both are covered by the `VersionHistory` functions.
- Unicode case mapping. `Text.Lower` and `Text.Upper` map ASCII letters only.
- Typographic single quotes. PowerShell also ends a single-quoted string at U+2018, U+2019, U+201A and U+201B, but the source doubles only the ASCII `'`. `AzureCli.Unescape` reads back ASCII quoting only, so `AzureCli.UnescapeEscape` and `AzureCli.ScriptAgreesWithSecrets` say nothing about values holding those characters.
- UTF-16 code units. JavaScript indexes strings by UTF-16 code unit, while a Dafny `string` is a sequence of whole characters. `Text.Substring`, `UserProfile.FirstChars`, `UserProfile.Initials`, `UserProfile.InitialsOfName`, `VersionHistory.TruncateVersion` and `VersionHistoryPanel.VersionCell` count characters. For a name or id with a character outside the Basic Multilingual Plane (an emoji, say), the source takes half of a surrogate pair and cuts at a different length, where the model takes the whole character.
- `Promise.all` in the edited copy is modelled as a sequential loop. Writes are independent and results keep input order.
- React's batching of state updates. Each handler's updates are applied in program order.
- The single-file screen does not await its refresh after a copy. The model applies the refresh before the handler returns.
- The colour helpers `getSourceEnvColor`/`getTargetEnvColor` of the single-file screen (`EnvironmentComparison.js:352-358`). They are only presentation.
- VersionHistoryPanel.SecretVersionHistory.RestoreVersion: a restore that answers with no body counts as a failure. Reading the new version id from a missing body throws before the reload.
- VersionHistory.VersionAge: a date that does not parse is modelled as its own case, `InvalidDate`. The source's `NaN` comparisons all fail and fall through to the years branch.

## Findings

| source | as written | input that shows it | evidently intended | confidence | as-written member | corrected member |
|---|---|---|---|---|---|---|
| src/components/EnvironmentComparison.js:515 | the "Copy N secret(s)" header counts the selected secrets, while the script only sets the secrets that could be read | two secrets selected, one read fails: the header announces 2 copies and the script sets 1 | count the secrets read, as the helper does at `azureCliGenerator.js:18` | high, not executed | ComparisonMonolith.MonolithHeaderOvercounts | AzureCli.ScriptAgreesWithSecrets |
| src/components/SecretVersionHistory.js:130 | CURRENT and the hidden restore action are decided by `index === 0`; with `pageSize: 10` (:272) the table passes the index within the page | eleven versions, page 2: the oldest version is tagged CURRENT and offers no restore | only the newest version overall is CURRENT and every other version offers a restore | medium, not executed (depends on the table passing the in-page index) | VersionHistoryPanel.SecondPageTagsOldVersionCurrent | VersionHistoryPanel.ListedRows |

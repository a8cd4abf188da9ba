/**
 * The version history dialog of one secret: the rules each table row follows
 * (the shortened version id, the CURRENT tag and the restore action, both decided
 * by the row index the table passes in) and the order of the requests a restore
 * makes. The secret store is an oracle whose answers are parameters.
 */
module VersionHistoryPanel {
  import opened Wrappers
  import opened Text
  import opened VersionHistory

  /** One version as the store lists it, newest first. */
  datatype VersionInfo = VersionInfo(version: string, createdOn: DateValue)

  /** What one table row shows. */
  datatype VersionRow = VersionRow(versionText: string, current: bool, restoreOffered: bool, age: Age)

  /** Rows per table page. */
  const PageSize: nat := 10

  /** The version cell: the first eight characters of the id and then `...`, also for an empty id. */
  function VersionCell(version: string): (text: string)
    ensures |text| == Clamp(8, |version|) + 3
    ensures text[|text| - 3..] == "..."
  {
    Substring(version, 0, 8) + "..."
  }

  /**
   * The cell agrees with `truncateVersion` at its default length for every
   * non-empty id; for the empty id the cell shows `...` where `truncateVersion`
   * gives the empty string.
   */
  lemma CellMatchesTruncate(version: string)
    ensures version != "" ==> VersionCell(version) == TruncateVersion(Some(version), DefaultVersionLength)
    ensures version == "" ==> VersionCell(version) == "..." && TruncateVersion(Some(version), DefaultVersionLength) == ""
  {
  }

  /** The row for `v` when the table hands the render functions `index`. */
  function RowAt(v: VersionInfo, index: nat, now: int): (row: VersionRow)
    ensures row.current <==> index == 0
    ensures row.restoreOffered <==> !row.current
    ensures row.versionText == VersionCell(v.version) && row.age == VersionAge(v.createdOn, now)
  {
    VersionRow(VersionCell(v.version), index == 0, index != 0, VersionAge(v.createdOn, now))
  }

  /**
   * The rows of the whole list, indexed from its start: the newest version alone
   * is CURRENT and every other version offers a restore.
   */
  function ListedRows(versions: seq<VersionInfo>, now: int): (rows: seq<VersionRow>)
    ensures |rows| == |versions|
    ensures forall i :: 0 <= i < |rows| ==> (rows[i].current <==> i == 0)
    ensures forall i :: 0 <= i < |rows| ==> (rows[i].restoreOffered <==> !rows[i].current)
    ensures forall i :: 0 <= i < |rows| ==>
      rows[i].versionText == VersionCell(versions[i].version) && rows[i].age == VersionAge(versions[i].createdOn, now)
  {
    seq(|versions|, i requires 0 <= i < |versions| => RowAt(versions[i], i, now))
  }

  /** The versions on table page `page` (numbered from 0). */
  function PageOf(versions: seq<VersionInfo>, page: nat): (slice: seq<VersionInfo>)
    ensures |slice| <= PageSize
    ensures slice == [] <==> |versions| <= page * PageSize
    ensures forall k :: 0 <= k < |slice| ==> page * PageSize + k < |versions| && slice[k] == versions[page * PageSize + k]
  {
    var start := if page * PageSize <= |versions| then page * PageSize else |versions|;
    var end := if start + PageSize <= |versions| then start + PageSize else |versions|;
    versions[start..end]
  }

  /**
   * The rows as the table renders page `page`: the index handed to the render
   * functions counts from the top of the page, so the first row of every page is
   * tagged CURRENT and offers no restore.
   */
  function PageRows(versions: seq<VersionInfo>, page: nat, now: int): (rows: seq<VersionRow>)
    ensures |rows| == |PageOf(versions, page)|
    ensures forall k :: 0 <= k < |rows| ==> rows[k] == RowAt(PageOf(versions, page)[k], k, now)
  {
    var slice := PageOf(versions, page);
    seq(|slice|, k requires 0 <= k < |slice| => RowAt(slice[k], k, now))
  }

  /** On the first page the rendered rows are the listed rows. */
  lemma FirstPageIsListed(versions: seq<VersionInfo>, now: int)
    ensures PageRows(versions, 0, now) == ListedRows(versions, now)[..|PageOf(versions, 0)|]
  {
  }

  /**
   * With eleven versions, the second page shows the eleventh (an old version) as
   * CURRENT and offers no restore for it.
   */
  lemma SecondPageTagsOldVersionCurrent(versions: seq<VersionInfo>, now: int)
    requires |versions| == 11
    ensures PageOf(versions, 1) == [versions[10]]
    ensures PageRows(versions, 1, now)[0].current && !PageRows(versions, 1, now)[0].restoreOffered
    ensures !ListedRows(versions, now)[10].current && ListedRows(versions, now)[10].restoreOffered
  {
  }

  /** A request or notification the dialog makes. */
  datatype Effect =
    | VersionsRequested(secretName: string, environment: string)
    | RestoreRequested(secretName: string, version: string, environment: string)
    | RestoreNotified(secretName: string)

  /** The answer to a request for the version list: it threw, or it answered with a list that may be missing. */
  datatype VersionsCall = VersionsThrew | VersionsAnswered(versions: Option<seq<VersionInfo>>)

  /**
   * The answer to a restore request: it threw, or it answered with a body that
   * may be missing (reading the new version id from a missing body throws).
   */
  datatype RestoreCall = RestoreThrew | RestoreAnswered(newVersion: Option<string>)

  /** Whether the restore handler gets past reading the new version id. */
  predicate RestoreSucceeded(call: RestoreCall) {
    call.RestoreAnswered? && call.newVersion.Some?
  }

  /** The version list after a list request: kept when it threw, the answer (or none) otherwise. */
  function ListAfter(call: VersionsCall, previous: seq<VersionInfo>): seq<VersionInfo> {
    match call
    case VersionsThrew => previous
    case VersionsAnswered(versions) => versions.GetOr([])
  }

  /**
   * Every restore notification in `effects` comes right after a list request,
   * which comes right after a restore request of the same secret.
   */
  predicate NotifiedAfterReload(effects: seq<Effect>) {
    forall k :: 0 <= k < |effects| && effects[k].RestoreNotified? ==>
      && 2 <= k
      && effects[k - 1].VersionsRequested?
      && effects[k - 2].RestoreRequested?
      && effects[k - 2].secretName == effects[k].secretName
  }

  /** Appending anything but a notification keeps the order. */
  lemma AppendRequestKeepsOrder(effects: seq<Effect>, e: Effect)
    requires NotifiedAfterReload(effects) && !e.RestoreNotified?
    ensures NotifiedAfterReload(effects + [e])
  {
    var all := effects + [e];
    forall k | 0 <= k < |all| && all[k].RestoreNotified?
      ensures 2 <= k && all[k - 1].VersionsRequested? && all[k - 2].RestoreRequested?
        && all[k - 2].secretName == all[k].secretName
    {
      assert k < |effects| && all[k] == effects[k];
    }
  }

  /** A notification right after a restore request and its reload keeps the order. */
  lemma AppendNotificationKeepsOrder(effects: seq<Effect>, secretName: string, version: string, environment: string)
    requires NotifiedAfterReload(effects)
    ensures NotifiedAfterReload(effects + [RestoreRequested(secretName, version, environment),
      VersionsRequested(secretName, environment), RestoreNotified(secretName)])
  {
    var tail := [RestoreRequested(secretName, version, environment),
      VersionsRequested(secretName, environment), RestoreNotified(secretName)];
    var all := effects + tail;
    forall k | 0 <= k < |all| && all[k].RestoreNotified?
      ensures 2 <= k && all[k - 1].VersionsRequested? && all[k - 2].RestoreRequested?
        && all[k - 2].secretName == all[k].secretName
    {
      if k < |effects| {
        assert all[k] == effects[k] && all[k - 1] == effects[k - 1] && all[k - 2] == effects[k - 2];
      } else {
        assert k == |effects| + 2;
      }
    }
  }

  class SecretVersionHistory {
    const secretName: string
    const environment: string
    /** Whether the dialog was given an `onRestore` callback. */
    const notifies: bool
    var versions: seq<VersionInfo>
    var effects: seq<Effect>

    /** The dialog's own requests keep notifications after their reloads. */
    predicate NotifiesAfterReload()
      reads this`effects
    {
      NotifiedAfterReload(effects)
    }

    constructor (secretName: string, environment: string, notifies: bool)
      ensures this.secretName == secretName && this.environment == environment && this.notifies == notifies
      ensures versions == [] && effects == []
      ensures NotifiesAfterReload()
    {
      this.secretName := secretName;
      this.environment := environment;
      this.notifies := notifies;
      versions := [];
      effects := [];
    }

    /**
     * `loadVersions`: requests the list for this secret in the current
     * environment; a failed request keeps the list, a missing list empties it.
     */
    method LoadVersions(call: VersionsCall)
      modifies this`versions, this`effects
      ensures effects == old(effects) + [VersionsRequested(secretName, environment)]
      ensures versions == ListAfter(call, old(versions))
      ensures call.VersionsAnswered? && call.versions.None? ==> versions == []
      ensures old(NotifiesAfterReload()) ==> NotifiesAfterReload()
    {
      if NotifiesAfterReload() {
        AppendRequestKeepsOrder(effects, VersionsRequested(secretName, environment));
      }
      effects := effects + [VersionsRequested(secretName, environment)];
      match call {
        case VersionsThrew =>
        case VersionsAnswered(list) =>
          versions := list.GetOr([]);
      }
    }

    /**
     * `handleRestoreVersion`: requests the restore; when it succeeds the list is
     * reloaded and then, if a callback was given, the restore is notified. When
     * it fails neither the reload nor the notification happens.
     */
    method RestoreVersion(version: string, call: RestoreCall, reload: VersionsCall)
      modifies this`versions, this`effects
      ensures RestoreSucceeded(call) ==>
        effects == old(effects) + [RestoreRequested(secretName, version, environment), VersionsRequested(secretName, environment)]
          + (if notifies then [RestoreNotified(secretName)] else [])
        && versions == ListAfter(reload, old(versions))
      ensures !RestoreSucceeded(call) ==>
        effects == old(effects) + [RestoreRequested(secretName, version, environment)] && versions == old(versions)
      ensures old(NotifiesAfterReload()) ==> NotifiesAfterReload()
    {
      var request, notified := RestoreRequested(secretName, version, environment), RestoreNotified(secretName);
      if NotifiesAfterReload() {
        AppendRequestKeepsOrder(effects, request);
        AppendNotificationKeepsOrder(effects, secretName, version, environment);
      }
      effects := effects + [request];
      if !RestoreSucceeded(call) {
        return;
      }
      LoadVersions(reload);
      if notifies {
        assert effects + [notified] == old(effects) + [request, VersionsRequested(secretName, environment), notified];
        effects := effects + [notified];
      }
    }
  }
}

/**
 The request handler's pure part: reading the request fields with their
 defaults, and the list → filter → report → (optional) delete pipeline.

 The provider's enumeration is a function parameter (`list`), the clock is
 the parameter `now`, and the report files and delete calls are represented
 by their names and targets rather than performed.
 */
module Handler {
  import opened Snapshots
  import opened Ages
  import opened Selection
  import Tokens

  /** The threshold, in days, used for either disk type when the request names none. */
  const DefaultDaysOld: int := 7
  /** The report of selected snapshots, always written and returned. */
  const FilteredReport: string := "filtered_snapshots.xlsx"
  /** The second report, written only when deletion is confirmed. */
  const DeletedReport: string := "deleted_snapshots.xlsx"

  /** The request body fields the handler reads; an absent field is `None`. */
  datatype Request = Request(
    daysOldOs: Option<int>,
    daysOldDataDisk: Option<int>,
    resourceGroupName: Option<string>,
    excludeSnapshots: Option<string>,
    deleteConfirm: Option<bool>)

  /** A request body that sets no field. */
  const NoFields: Request := Request(None, None, None, None, None)

  /** What the handler derives from the request before listing anything. */
  datatype Params = Params(scope: Scope, criteria: Criteria, deleteConfirm: bool)

  /** One delete call: the snapshot is addressed by resource group and name. */
  datatype DeleteRequest = DeleteRequest(resourceGroup: string, name: string)

  /** The pipeline's result: the selected records (the content of the returned
      report), the delete calls issued in order, and the report files written. */
  datatype Outcome = Outcome(report: seq<Snapshot>, deletions: seq<DeleteRequest>, files: seq<string>)

  /** Request fields with their defaults; the exclusion string split on commas. */
  function ParseParams(req: Request): (p: Params)
    ensures req.daysOldOs == None ==> p.criteria.osDays == DefaultDaysOld
    ensures forall d :: req.daysOldOs == Some(d) ==> p.criteria.osDays == d
    ensures req.daysOldDataDisk == None ==> p.criteria.dataDays == DefaultDaysOld
    ensures forall d :: req.daysOldDataDisk == Some(d) ==> p.criteria.dataDays == d
    ensures p.scope.ResourceGroup? <==> Truthy(req.resourceGroupName)
    ensures p.scope.ResourceGroup? ==> Some(p.scope.group) == req.resourceGroupName
    ensures |p.criteria.exclude| >= 1
    ensures forall i :: 0 <= i < |p.criteria.exclude| ==> Tokens.Comma !in p.criteria.exclude[i]
    ensures Tokens.Join(p.criteria.exclude, Tokens.Comma) == req.excludeSnapshots.GetOr("")
    ensures req.excludeSnapshots == None ==> p.criteria.exclude == [""]
    ensures p.deleteConfirm <==> req.deleteConfirm == Some(true)
  {
    var raw := req.excludeSnapshots.GetOr("");
    Tokens.JoinSplit(raw, Tokens.Comma);
    Params(
      ListScope(req.resourceGroupName),
      Criteria(
        req.daysOldOs.GetOr(DefaultDaysOld),
        req.daysOldDataDisk.GetOr(DefaultDaysOld),
        Tokens.Split(raw, Tokens.Comma)),
      req.deleteConfirm.GetOr(false))
  }

  /** One delete call per record, in the records' order. */
  function DeleteRequests(snaps: seq<Snapshot>): (calls: seq<DeleteRequest>)
    ensures |calls| == |snaps|
    ensures forall i :: 0 <= i < |snaps| ==>
      calls[i].resourceGroup == snaps[i].resourceGroup && calls[i].name == snaps[i].name
  {
    if |snaps| == 0 then []
    else
      var last := snaps[|snaps| - 1];
      DeleteRequests(snaps[..|snaps| - 1]) + [DeleteRequest(last.resourceGroup, last.name)]
  }

  /** The HTTP outcome: the pipeline's result (status 200), or the error text
      an exception produced (status 400). */
  datatype Response = Ok(outcome: Outcome) | BadRequest(body: string)

  /** Prefix of every 400 response body. */
  const ErrorPrefix: string := "Error: "

  /** The whole pipeline for one request at time `now`; `list` is the
      provider's enumeration for a scope. */
  function Handle(req: Request, list: Scope -> Listing, now: int): (r: Response)
    ensures var p := ParseParams(req);
      r.BadRequest? <==> list(p.scope).ListFailed?
    ensures var p := ParseParams(req);
      r.BadRequest? ==> r.body == ErrorPrefix + list(p.scope).error
    ensures var p := ParseParams(req);
      r.Ok? ==>
        var listed := NormalizeAll(list(p.scope).items);
        && (forall s :: s in r.outcome.report <==> s in listed && Eligible(s, now, p.criteria))
        && Embeds(r.outcome.report, listed, KeptPositions(listed, now, p.criteria))
    ensures var p := ParseParams(req);
      r.Ok? && p.deleteConfirm ==>
        && |r.outcome.deletions| == |r.outcome.report|
        && forall i :: 0 <= i < |r.outcome.report| ==>
             r.outcome.deletions[i] == DeleteRequest(r.outcome.report[i].resourceGroup, r.outcome.report[i].name)
    ensures r.Ok? && !ParseParams(req).deleteConfirm ==> r.outcome.deletions == []
    ensures r.Ok? && ParseParams(req).deleteConfirm ==> r.outcome.files == [FilteredReport, DeletedReport]
    ensures r.Ok? && !ParseParams(req).deleteConfirm ==> r.outcome.files == [FilteredReport]
  {
    var p := ParseParams(req);
    match list(p.scope)
    case ListFailed(e) => BadRequest(ErrorPrefix + e)
    case Listed(items) =>
      var listed := NormalizeAll(items);
      var report := Filter(listed, now, p.criteria);
      FilterMembership(listed, now, p.criteria);
      FilterIsOrderedSubsequence(listed, now, p.criteria);
      if p.deleteConfirm then
        Ok(Outcome(report, DeleteRequests(report), [FilteredReport, DeletedReport]))
      else
        Ok(Outcome(report, [], [FilteredReport]))
  }

  /** A request that sets no field selects, from the whole subscription, exactly
      the records at least seven days old, provided no listed snapshot has an
      empty identifier: the `[""]` exclusion list it produces excludes nothing
      else, and nothing is deleted. */
  lemma DefaultRequestSelectsWeekOld(list: Scope -> Listing, now: int)
    requires list(Subscription).Listed?
    requires forall i :: 0 <= i < |list(Subscription).items| ==> list(Subscription).items[i].id != ""
    ensures Handle(NoFields, list, now).Ok?
    ensures Handle(NoFields, list, now).outcome.report
         == Filter(NormalizeAll(list(Subscription).items), now, Criteria(DefaultDaysOld, DefaultDaysOld, []))
    ensures Handle(NoFields, list, now).outcome.deletions == []
  {
    var listed := NormalizeAll(list(Subscription).items);
    var none := Criteria(DefaultDaysOld, DefaultDaysOld, []);
    EmptyTokenHarmless(listed, now, none);
    assert none.(exclude := none.exclude + [""]) == ParseParams(NoFields).criteria;
  }
}

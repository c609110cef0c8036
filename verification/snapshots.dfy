/**
 The snapshot record and the lister's normalisation of provider objects into it.

 The provider enumeration itself is outside the model: the lister receives the
 provider's objects as a sequence and maps each one to a `Snapshot`, in order.
 Timestamps are integers counting microseconds (the resolution of Python's
 datetime values) on one UTC epoch.
 */
module Snapshots {

  datatype Option<+T> = None | Some(value: T) {
    /** The held value, or `default` when there is none (Python's `dict.get(key, default)`). */
    function GetOr(default: T): T {
      match this
      case Some(v) => v
      case None => default
    }
  }

  /** A snapshot comes either from an operating-system disk or from a data disk. */
  datatype DiskType = OS | Data

  /** The fields of one provider snapshot object that the lister reads.
      `osType` is the provider's optional operating-system tag. */
  datatype ProviderSnapshot = ProviderSnapshot(
    name: string,
    id: string,
    timeCreated: int,
    osType: Option<string>,
    resourceGroup: string)

  /** The normalised record every later stage works on. */
  datatype Snapshot = Snapshot(
    name: string,
    id: string,
    created: int,
    diskType: DiskType,
    resourceGroup: string)

  /** Where the lister enumerates: the whole subscription or one resource group. */
  datatype Scope = Subscription | ResourceGroup(group: string)

  /** What one enumeration call gives back: the provider's objects in
      enumeration order, or the error it raised. */
  datatype Listing = Listed(items: seq<ProviderSnapshot>) | ListFailed(error: string)

  /** Python truthiness of an optional string: absent and empty are both false. */
  predicate Truthy(tag: Option<string>) {
    tag.Some? && tag.value != ""
  }

  /** The disk type a provider object is classified as: OS exactly when it
      carries a non-empty operating-system tag. */
  function Classify(osType: Option<string>): (t: DiskType)
    ensures osType == None ==> t == Data
    ensures osType == Some("") ==> t == Data
    ensures forall tag :: osType == Some(tag) && |tag| > 0 ==> t == OS
  {
    match osType
    case None => Data
    case Some(tag) => if tag != "" then OS else Data
  }

  /** One provider object as a record: fields copied, disk type classified. */
  function Normalize(p: ProviderSnapshot): (s: Snapshot)
    ensures s.name == p.name && s.id == p.id && s.created == p.timeCreated
    ensures s.resourceGroup == p.resourceGroup
    ensures s.diskType == OS <==> Truthy(p.osType)
  {
    Snapshot(p.name, p.id, p.timeCreated, Classify(p.osType), p.resourceGroup)
  }

  /** The lister's loop: one record per provider object, in enumeration order. */
  function NormalizeAll(ps: seq<ProviderSnapshot>): (records: seq<Snapshot>)
    ensures |records| == |ps|
    ensures forall i :: 0 <= i < |ps| ==> records[i] == Normalize(ps[i])
  {
    if |ps| == 0 then []
    else NormalizeAll(ps[..|ps| - 1]) + [Normalize(ps[|ps| - 1])]
  }

  /** The enumeration scope: a resource group when one is named (non-empty),
      otherwise the whole subscription. */
  function ListScope(resourceGroup: Option<string>): (scope: Scope)
    ensures scope.ResourceGroup? <==> Truthy(resourceGroup)
    ensures scope.ResourceGroup? ==> Some(scope.group) == resourceGroup
  {
    if Truthy(resourceGroup) then ResourceGroup(resourceGroup.value) else Subscription
  }
}

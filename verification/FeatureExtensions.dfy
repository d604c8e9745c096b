/** Mapping between the entity and the API records, and the blank-aware
    partial update that an update request applies to a feature. */
module FeatureExtensions {
  import opened Wrappers
  import opened Text
  import opened Models

  /** `ToResponse`: the response carries all eleven fields of the feature unchanged. */
  function ToResponse(f: Feature): (r: FeatureResponse)
    ensures r.id == f.id && r.name == f.name && r.description == f.description
    ensures r.status == f.status && r.category == f.category && r.icon == f.icon
    ensures r.lastUpdated == f.lastUpdated && r.lastUsed == f.lastUsed
    ensures r.usageCount == f.usageCount && r.successRate == f.successRate && r.errorCount == f.errorCount
  {
    FeatureResponse(f.id, f.name, f.description, f.status, f.category, f.icon,
                    f.lastUpdated, f.usageCount, f.successRate, f.errorCount, f.lastUsed)
  }

  /** No information is lost on the way out: distinct features give distinct responses. */
  lemma ToResponseInjective(f: Feature, g: Feature)
    requires ToResponse(f) == ToResponse(g)
    ensures f == g
  {
  }

  /** `ToEntity`: a new, not yet stored feature built from a create request at time `now`. */
  function ToEntity(r: CreateFeatureRequest, now: Timestamp): (f: Feature)
    ensures f.id == 0
    ensures f.name == r.name && f.description == r.description && f.status == r.status
    ensures f.category == r.category && f.icon == r.icon
    ensures f.usageCount == 0 && f.successRate == 0 && f.errorCount == 0
    ensures f.lastUsed == None && f.lastUpdated == now
  {
    Feature(0, r.name, r.description, r.status, r.category, r.icon, now, 0, 0, 0, None)
  }

  /** An update field takes effect when it is present and not blank. */
  predicate Supplied(v: Option<string>)
    ensures v.None? ==> !Supplied(v)
    ensures v.Some? && IsBlank(v.value) ==> !Supplied(v)
    ensures v.Some? && |v.value| > 0 && !IsWhiteSpace(v.value[0]) ==> Supplied(v)
  {
    v.Some? && !IsBlank(v.value)
  }

  function Overwrite(current: string, incoming: Option<string>): string
  {
    if Supplied(incoming) then incoming.value else current
  }

  /** The feature after `UpdateFromRequest(request)` at time `now`. */
  function UpdatedFromRequest(f: Feature, r: UpdateFeatureRequest, now: Timestamp): (g: Feature)
    ensures g.id == f.id && g.name == f.name
    ensures g.usageCount == f.usageCount && g.successRate == f.successRate
    ensures g.errorCount == f.errorCount && g.lastUsed == f.lastUsed
    ensures g.lastUpdated == now
  {
    f.(description := Overwrite(f.description, r.description),
       status := Overwrite(f.status, r.status),
       category := Overwrite(f.category, r.category),
       icon := Overwrite(f.icon, r.icon),
       lastUpdated := now)
  }

  /** Each editable field takes the request's value exactly when that value is
      supplied, and keeps the feature's value otherwise. */
  lemma UpdateOverwritesSuppliedFields(f: Feature, r: UpdateFeatureRequest, now: Timestamp)
    ensures var g := UpdatedFromRequest(f, r, now);
      && (Supplied(r.description) ==> g.description == r.description.value)
      && (!Supplied(r.description) ==> g.description == f.description)
      && (Supplied(r.status) ==> g.status == r.status.value)
      && (!Supplied(r.status) ==> g.status == f.status)
      && (Supplied(r.category) ==> g.category == r.category.value)
      && (!Supplied(r.category) ==> g.category == f.category)
      && (Supplied(r.icon) ==> g.icon == r.icon.value)
      && (!Supplied(r.icon) ==> g.icon == f.icon)
  {
  }

  /** Applying the same request twice at the same time is the same as applying it once. */
  lemma UpdateFromRequestIdempotent(f: Feature, r: UpdateFeatureRequest, now: Timestamp)
    ensures UpdatedFromRequest(UpdatedFromRequest(f, r, now), r, now) == UpdatedFromRequest(f, r, now)
  {
  }

  /** A request with every field null (or blank) changes nothing but `LastUpdated`. */
  lemma EmptyUpdateOnlyTouchesLastUpdated(f: Feature, r: UpdateFeatureRequest, now: Timestamp)
    requires !Supplied(r.description) && !Supplied(r.status) && !Supplied(r.category) && !Supplied(r.icon)
    ensures UpdatedFromRequest(f, r, now) == f.(lastUpdated := now)
  {
  }

  /** With a later clock, `LastUpdated` strictly advances on every update. */
  lemma UpdateAdvancesLastUpdated(f: Feature, r: UpdateFeatureRequest, now: Timestamp)
    requires f.lastUpdated < now
    ensures f.lastUpdated < UpdatedFromRequest(f, r, now).lastUpdated
  {
  }

  /** The field-wise merge of two update requests: the later one wins where it is supplied. */
  function Merge(first: UpdateFeatureRequest, second: UpdateFeatureRequest): UpdateFeatureRequest
  {
    UpdateFeatureRequest(
      if Supplied(second.description) then second.description else first.description,
      if Supplied(second.status) then second.status else first.status,
      if Supplied(second.category) then second.category else first.category,
      if Supplied(second.icon) then second.icon else first.icon)
  }

  /** Two successive updates act as one update with the merged request and the later time. */
  lemma UpdatesCompose(f: Feature, r1: UpdateFeatureRequest, t1: Timestamp, r2: UpdateFeatureRequest, t2: Timestamp)
    ensures UpdatedFromRequest(UpdatedFromRequest(f, r1, t1), r2, t2) == UpdatedFromRequest(f, Merge(r1, r2), t2)
  {
  }

  /** The C# `Feature` object: a mutable record with one field per column. */
  class FeatureEntity {
    var id: int
    var name: string
    var description: string
    var status: string
    var category: string
    var icon: string
    var lastUpdated: Timestamp
    var usageCount: int
    var successRate: int
    var errorCount: int
    var lastUsed: Option<Timestamp>

    /** The values the object currently holds. */
    function Value(): Feature
      reads this
    {
      Feature(id, name, description, status, category, icon,
              lastUpdated, usageCount, successRate, errorCount, lastUsed)
    }

    /** The object the data mapper materialises from a row. */
    constructor (row: Feature)
      ensures Value() == row
    {
      id, name, description := row.id, row.name, row.description;
      status, category, icon := row.status, row.category, row.icon;
      lastUpdated, usageCount := row.lastUpdated, row.usageCount;
      successRate, errorCount, lastUsed := row.successRate, row.errorCount, row.lastUsed;
    }

    /** `UpdateFromRequest`: overwrite each supplied field in place, then stamp `LastUpdated`. */
    method UpdateFromRequest(request: UpdateFeatureRequest, now: Timestamp)
      modifies this
      ensures Value() == UpdatedFromRequest(old(Value()), request, now)
    {
      if Supplied(request.description) {
        description := request.description.value;
      }
      if Supplied(request.status) {
        status := request.status.value;
      }
      if Supplied(request.category) {
        category := request.category.value;
      }
      if Supplied(request.icon) {
        icon := request.icon.value;
      }
      lastUpdated := now;
    }
  }

  /** A fetched row materialised as an object and patched in place by
      `UpdateFromRequest`: the values the object then holds. */
  method ApplyUpdate(row: Feature, request: UpdateFeatureRequest, now: Timestamp) returns (g: Feature)
    ensures g == UpdatedFromRequest(row, request, now)
  {
    var entity := new FeatureEntity(row);
    entity.UpdateFromRequest(request, now);
    g := entity.Value();
  }
}

/** The feature business rules over the repository: validate, check the name,
    insert and re-fetch; fetch, patch, persist and re-fetch; fetch and delete. */
module FeatureServices {
  import opened Wrappers
  import opened Text
  import opened Models
  import opened FeatureExtensions
  import opened FeatureRows
  import opened Sqlite
  import opened Repositories

  /** The message of the validation exception: every failed annotation, in order. */
  function ValidationFailedMessage(errors: seq<ValidationError>): string
  {
    "Validation failed: " + Join(", ", ErrorMessages(errors))
  }

  function DuplicateNameMessage(name: string): string
  {
    "A feature with the name '" + name + "' already exists"
  }

  function NotFoundMessage(id: int): string
  {
    "Feature with ID " + IntToString(id) + " not found"
  }

  class FeatureService {
    const repo: FeatureRepository

    ghost predicate Valid()
      reads this, repo, repo.db
    {
      repo.Valid()
    }

    constructor (repo: FeatureRepository)
      requires repo.Valid()
      ensures Valid() && this.repo == repo
    {
      this.repo := repo;
    }

    /** `GetAllFeaturesAsync`: the repository's listing, failures rethrown. */
    method GetAllFeatures() returns (r: Result<seq<Feature>, Exception>)
      requires Valid()
      modifies repo
      ensures Valid() && unchanged(repo.db)
      ensures repo.calls == old(repo.calls) + [GetAllCall]
      ensures r == OnTable(repo.db.tableExists, SortByName(repo.db.rows))
    {
      r := repo.GetAll();
    }

    /** `GetFeatureByIdAsync`. */
    method GetFeatureById(id: int) returns (r: Result<Option<Feature>, Exception>)
      requires Valid()
      modifies repo
      ensures Valid() && unchanged(repo.db)
      ensures repo.calls == old(repo.calls) + [GetByIdCall(id)]
      ensures r == OnTable(repo.db.tableExists, FindById(repo.db.rows, id))
    {
      r := repo.GetById(id);
    }

    /** `GetFeatureByNameAsync`. */
    method GetFeatureByName(name: string) returns (r: Result<Option<Feature>, Exception>)
      requires Valid()
      modifies repo
      ensures Valid() && unchanged(repo.db)
      ensures repo.calls == old(repo.calls) + [GetByNameCall(name)]
      ensures r == OnTable(repo.db.tableExists, FindByName(repo.db.rows, name))
    {
      r := repo.GetByName(name);
    }

    /** `CreateFeatureAsync`: an invalid request is refused before the repository is
        touched; a taken name is refused after the existence check alone; otherwise
        the row is inserted and the row read back by the new id is returned. */
    method CreateFeature(request: CreateFeatureRequest, now: Timestamp) returns (r: Result<Feature, Exception>)
      requires Valid()
      modifies repo, repo.db
      ensures Valid()
      ensures !IsValidCreateRequest(request) ==>
        && r == Failure(Throw(ValidationException, ValidationFailedMessage(Validate(request))))
        && repo.calls == old(repo.calls) && unchanged(repo.db)
      ensures IsValidCreateRequest(request) && !old(repo.db.tableExists) ==>
        && r == Failure(NoSuchTable)
        && repo.calls == old(repo.calls) + [ExistsCall(request.name, None)] && unchanged(repo.db)
      ensures IsValidCreateRequest(request) && old(repo.db.tableExists) && HasName(old(repo.db.rows), request.name) ==>
        && r == Failure(Throw(InvalidOperationException, DuplicateNameMessage(request.name)))
        && repo.calls == old(repo.calls) + [ExistsCall(request.name, None)] && unchanged(repo.db)
      ensures IsValidCreateRequest(request) && old(repo.db.tableExists) && !HasName(old(repo.db.rows), request.name) ==>
        && r == Success(ToEntity(request, now).(id := old(repo.db.lastId) + 1))
        && repo.db.rows == old(repo.db.rows) + [r.value]
        && repo.calls == old(repo.calls) +
             [ExistsCall(request.name, None), CreateCall(ToEntity(request, now)), GetByIdCall(r.value.id)]
    {
      ghost var calls0 := repo.calls;
      var errors := Validate(request);
      if errors != [] {
        return Failure(Throw(ValidationException, ValidationFailedMessage(errors)));
      }
      var taken := repo.Exists(request.name, None);
      NameTakenWithoutExclusion(repo.db.rows, request.name);
      if taken.Failure? {
        return Failure(taken.error);
      }
      if taken.value {
        return Failure(Throw(InvalidOperationException, DuplicateNameMessage(request.name)));
      }
      var feature := ToEntity(request, now);
      var id := repo.Create(feature);
      // The name is free and the table exists, so the insert succeeds.
      assert id.Success?;
      var created := repo.GetById(id.value);
      // The row just inserted is found again: "Failed to retrieve created feature" cannot occur.
      FindByIdFindsRow(repo.db.rows, |repo.db.rows| - 1);
      assert created == Success(Some(feature.(id := id.value)));
      CallLogAppend3(calls0, ExistsCall(request.name, None), CreateCall(feature), GetByIdCall(id.value));
      r := Success(created.value.value);
    }

    /** `UpdateFeatureAsync`: a missing id is refused after the lookup alone;
        otherwise the fetched row is patched by `UpdateFromRequest`, written back,
        and read again, so the lookup by id happens exactly twice. */
    method UpdateFeature(id: int, request: UpdateFeatureRequest, now: Timestamp) returns (r: Result<Feature, Exception>)
      requires Valid()
      modifies repo, repo.db
      ensures Valid()
      ensures !old(repo.db.tableExists) ==>
        && r == Failure(NoSuchTable)
        && repo.calls == old(repo.calls) + [GetByIdCall(id)] && unchanged(repo.db)
      ensures old(repo.db.tableExists) && !HasId(old(repo.db.rows), id) ==>
        && r == Failure(Throw(InvalidOperationException, NotFoundMessage(id)))
        && repo.calls == old(repo.calls) + [GetByIdCall(id)] && unchanged(repo.db)
      ensures old(repo.db.tableExists) && HasId(old(repo.db.rows), id) ==>
        && r == Success(UpdatedFromRequest(FindById(old(repo.db.rows), id).value, request, now))
        && repo.db.rows == UpdateRows(old(repo.db.rows), r.value)
        && repo.calls == old(repo.calls) + [GetByIdCall(id), UpdateCall(r.value), GetByIdCall(id)]
    {
      ghost var before, calls0 := repo.db.rows, repo.calls;
      var existing := repo.GetById(id);
      if existing.Failure? {
        return Failure(existing.error);
      }
      if existing.value.None? {
        return Failure(Throw(InvalidOperationException, NotFoundMessage(id)));
      }
      var feature := ApplyUpdate(existing.value.value, request, now);
      var success := repo.Update(feature);
      // The row was just read, so the UPDATE matches it: "Failed to update" cannot occur.
      assert success == Success(true);
      var updated := repo.GetById(id);
      FindByIdAfterUpdate(before, feature);
      assert updated == Success(Some(feature));
      CallLogAppend3(calls0, GetByIdCall(id), UpdateCall(feature), GetByIdCall(id));
      r := Success(updated.value.value);
    }

    /** `DeleteFeatureAsync`: false without a DELETE when the id is absent,
        otherwise the result of the DELETE, which removes just that row. */
    method DeleteFeature(id: int) returns (r: Result<bool, Exception>)
      requires Valid()
      modifies repo, repo.db
      ensures Valid()
      ensures r == OnTable(old(repo.db.tableExists), HasId(old(repo.db.rows), id))
      ensures repo.db.rows == DeleteRows(old(repo.db.rows), id)
      ensures r == Success(true) ==> repo.calls == old(repo.calls) + [GetByIdCall(id), DeleteCall(id)]
      ensures r != Success(true) ==> repo.calls == old(repo.calls) + [GetByIdCall(id)] && unchanged(repo.db)
    {
      var feature := repo.GetById(id);
      if feature.Failure? {
        return Failure(feature.error);
      }
      if feature.value.None? {
        DeleteRowsNoMatch(repo.db.rows, id);
        return Success(false);
      }
      r := repo.Delete(id);
    }

    /** `FeatureExistsAsync`: exactly the repository's answer. */
    method FeatureExists(name: string, excludeId: Option<int>) returns (r: Result<bool, Exception>)
      requires Valid()
      modifies repo
      ensures Valid() && unchanged(repo.db)
      ensures repo.calls == old(repo.calls) + [ExistsCall(name, excludeId)]
      ensures r == OnTable(repo.db.tableExists, NameTaken(repo.db.rows, name, excludeId))
    {
      r := repo.Exists(name, excludeId);
    }
  }
}

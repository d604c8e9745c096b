/** The REST controller of `api/FeaturesApi`: each action is a sequence of
    database-service calls with early returns, ending in an action result that
    fixes the HTTP status and the response envelope. An exception from the
    database is not caught here; it escapes the action as the `Failure` of its
    result. */
module ApiControllers {
  import opened Wrappers
  import opened Models
  import opened FeatureExtensions
  import opened FeatureRows
  import opened Sqlite
  import opened DatabaseServices

  /** The action results the controller returns. */
  datatype ActionResult<T> =
    | Ok(body: ApiResponse<T>)
    | NotFound(body: ApiResponse<T>)
    | BadRequest(body: ApiResponse<T>)
    | CreatedAtAction(actionName: string, routeId: int, body: ApiResponse<T>)
    | Problem(detail: string)

  /** The HTTP status each kind of action result is sent with; no two kinds share one. */
  function StatusCode<T>(r: ActionResult<T>): (code: int)
    ensures r.Ok? <==> code == 200
    ensures r.CreatedAtAction? <==> code == 201
    ensures r.BadRequest? <==> code == 400
    ensures r.NotFound? <==> code == 404
    ensures r.Problem? <==> code == 500
  {
    match r
    case Ok(_) => 200
    case NotFound(_) => 404
    case BadRequest(_) => 400
    case CreatedAtAction(_, _, _) => 201
    case Problem(_) => 500
  }

  /** The envelope of a failure answered by the controller itself. */
  function Refusal<T>(message: string, errors: Option<seq<string>>): ApiResponse<T>
  {
    ApiResponse(false, Some(message), None, errors)
  }

  /** The envelope of a success. */
  function Accepted<T>(message: string, data: Option<T>): ApiResponse<T>
  {
    ApiResponse(true, Some(message), data, None)
  }

  const FeatureNotFound := "Feature not found"
  const NameAlreadyExists := "A feature with this name already exists"

  /** `features.Select(f => f.ToResponse())`. */
  function ToResponses(fs: seq<Feature>): (r: seq<FeatureResponse>)
    ensures |r| == |fs|
    ensures forall i :: 0 <= i < |fs| ==> r[i] == ToResponse(fs[i])
  {
    seq(|fs|, i requires 0 <= i < |fs| => ToResponse(fs[i]))
  }

  /** The listing sent by `GetAll` keeps the order of the rows and loses no field. */
  lemma ToResponsesInjective(fs: seq<Feature>, gs: seq<Feature>)
    requires ToResponses(fs) == ToResponses(gs)
    ensures fs == gs
  {
    assert |fs| == |gs|;
    forall i | 0 <= i < |fs| ensures fs[i] == gs[i] {
      ToResponseInjective(fs[i], gs[i]);
    }
  }

  class FeaturesApiController {
    const db: DatabaseService

    ghost predicate Valid()
      reads this, db, db.db
    {
      db.Valid()
    }

    constructor (db: DatabaseService)
      requires db.Valid()
      ensures Valid() && this.db == db
    {
      this.db := db;
    }

    /** `GET api/FeaturesApi`: 200 with every feature, in name order. */
    method GetAll() returns (r: Result<ActionResult<seq<FeatureResponse>>, Exception>)
      requires Valid()
      modifies db
      ensures Valid() && unchanged(db.db)
      ensures db.calls == old(db.calls) + [GetAllCall]
      ensures !db.db.tableExists ==> r == Failure(NoSuchTable)
      ensures db.db.tableExists ==>
        r == Success(Ok(Accepted("Features retrieved successfully", Some(ToResponses(SortByName(db.db.rows))))))
    {
      var features := db.GetAllFeatures();
      if features.Failure? {
        return Failure(features.error);
      }
      r := Success(Ok(Accepted("Features retrieved successfully", Some(ToResponses(features.value)))));
    }

    /** `GET api/FeaturesApi/{id}`: 200 with the feature, or 404 when no row has the id. */
    method GetById(id: int) returns (r: Result<ActionResult<FeatureResponse>, Exception>)
      requires Valid()
      modifies db
      ensures Valid() && unchanged(db.db)
      ensures db.calls == old(db.calls) + [GetByIdCall(id)]
      ensures !db.db.tableExists ==> r == Failure(NoSuchTable)
      ensures db.db.tableExists && !HasId(db.db.rows, id) ==>
        r == Success(NotFound(Refusal(FeatureNotFound, None)))
      ensures db.db.tableExists && HasId(db.db.rows, id) ==>
        r == Success(Ok(Accepted("Feature retrieved successfully", Some(ToResponse(FindById(db.db.rows, id).value)))))
    {
      var feature := db.GetFeatureById(id);
      if feature.Failure? {
        return Failure(feature.error);
      }
      if feature.value.None? {
        return Success(NotFound(Refusal(FeatureNotFound, None)));
      }
      r := Success(Ok(Accepted("Feature retrieved successfully", Some(ToResponse(feature.value.value)))));
    }

    /** `POST api/FeaturesApi`: 400 listing every failed annotation before the
        store is consulted; 400 after the name check alone when the name is
        taken; otherwise 201 pointing at `GetById` of the id the insert returned. */
    method Create(request: CreateFeatureRequest, now: Timestamp) returns (r: Result<ActionResult<FeatureResponse>, Exception>)
      requires Valid()
      modifies db, db.db
      ensures Valid()
      ensures !IsValidCreateRequest(request) ==>
        && r == Success(BadRequest(Refusal("Validation failed", Some(ErrorMessages(Validate(request))))))
        && db.calls == old(db.calls) && unchanged(db.db)
      ensures IsValidCreateRequest(request) && !old(db.db.tableExists) ==>
        && r == Failure(NoSuchTable)
        && db.calls == old(db.calls) + [ExistsCall(request.name, None)] && unchanged(db.db)
      ensures IsValidCreateRequest(request) && old(db.db.tableExists) && HasName(old(db.db.rows), request.name) ==>
        && r == Success(BadRequest(Refusal("Feature name already exists", Some([NameAlreadyExists]))))
        && db.calls == old(db.calls) + [ExistsCall(request.name, None)] && unchanged(db.db)
      ensures IsValidCreateRequest(request) && old(db.db.tableExists) && !HasName(old(db.db.rows), request.name) ==>
        var created := ToEntity(request, now).(id := old(db.db.lastId) + 1);
        && r == Success(CreatedAtAction("GetById", created.id,
                          Accepted("Feature created successfully", Some(ToResponse(created)))))
        && db.db.rows == old(db.db.rows) + [created]
        && db.calls == old(db.calls) +
             [ExistsCall(request.name, None), CreateCall(ToEntity(request, now)), GetByIdCall(created.id)]
    {
      ghost var calls0 := db.calls;
      var errors := Validate(request);
      if errors != [] {
        return Success(BadRequest(Refusal("Validation failed", Some(ErrorMessages(errors)))));
      }
      var nameTaken := db.FeatureExists(request.name, None);
      NameTakenWithoutExclusion(db.db.rows, request.name);
      if nameTaken.Failure? {
        return Failure(nameTaken.error);
      }
      if nameTaken.value {
        return Success(BadRequest(Refusal("Feature name already exists", Some([NameAlreadyExists]))));
      }
      ghost var rows0 := db.db.rows;
      var feature := ToEntity(request, now);
      var id := db.CreateFeature(feature);
      // The name is free and the table exists, so the insert succeeds.
      assert id.Success?;
      ghost var created := feature.(id := id.value);
      assert db.db.rows == rows0 + [created] && db.db.rows[|rows0|] == created;
      var createdFeature := db.GetFeatureById(id.value);
      // The row just inserted is found again, so `createdFeature!` does not fail.
      FindByIdFindsRow(db.db.rows, |rows0|);
      assert createdFeature == Success(Some(created));
      CallLogAppend3(calls0, ExistsCall(request.name, None), CreateCall(feature), GetByIdCall(id.value));
      r := Success(CreatedAtAction("GetById", id.value,
                     Accepted("Feature created successfully", Some(ToResponse(createdFeature.value.value)))));
    }

    /** `PUT api/FeaturesApi/{id}`: 404 without a write when no row has the id;
        otherwise the fetched feature is patched, written back and read again,
        and 200 carries the row as re-read. */
    method Update(id: int, request: UpdateFeatureRequest, now: Timestamp) returns (r: Result<ActionResult<FeatureResponse>, Exception>)
      requires Valid()
      modifies db, db.db
      ensures Valid()
      ensures !old(db.db.tableExists) ==>
        && r == Failure(NoSuchTable)
        && db.calls == old(db.calls) + [GetByIdCall(id)] && unchanged(db.db)
      ensures old(db.db.tableExists) && !HasId(old(db.db.rows), id) ==>
        && r == Success(NotFound(Refusal(FeatureNotFound, None)))
        && db.calls == old(db.calls) + [GetByIdCall(id)] && unchanged(db.db)
      ensures old(db.db.tableExists) && HasId(old(db.db.rows), id) ==>
        var updated := UpdatedFromRequest(FindById(old(db.db.rows), id).value, request, now);
        && r == Success(Ok(Accepted("Feature updated successfully", Some(ToResponse(updated)))))
        && db.db.rows == UpdateRows(old(db.db.rows), updated)
        && db.calls == old(db.calls) + [GetByIdCall(id), UpdateCall(updated), GetByIdCall(id)]
    {
      ghost var before, calls0 := db.db.rows, db.calls;
      var feature := db.GetFeatureById(id);
      if feature.Failure? {
        return Failure(feature.error);
      }
      if feature.value.None? {
        return Success(NotFound(Refusal(FeatureNotFound, None)));
      }
      var patched := ApplyUpdate(feature.value.value, request, now);
      var success := db.UpdateFeature(patched);
      // The row was just read, so the UPDATE matches it: the problem response is not produced.
      assert success == Success(true);
      var updatedFeature := db.GetFeatureById(id);
      FindByIdAfterUpdate(before, patched);
      assert updatedFeature == Success(Some(patched));
      CallLogAppend3(calls0, GetByIdCall(id), UpdateCall(patched), GetByIdCall(id));
      r := Success(Ok(Accepted("Feature updated successfully", Some(ToResponse(updatedFeature.value.value)))));
    }

    /** `DELETE api/FeaturesApi/{id}`: 404 without a delete when no row has the
        id; otherwise the row is removed and 200 carries no data. */
    method Delete(id: int) returns (r: Result<ActionResult<()>, Exception>)
      requires Valid()
      modifies db, db.db
      ensures Valid()
      ensures !old(db.db.tableExists) ==>
        && r == Failure(NoSuchTable)
        && db.calls == old(db.calls) + [GetByIdCall(id)] && unchanged(db.db)
      ensures old(db.db.tableExists) && !HasId(old(db.db.rows), id) ==>
        && r == Success(NotFound(Refusal(FeatureNotFound, None)))
        && db.calls == old(db.calls) + [GetByIdCall(id)] && unchanged(db.db)
      ensures old(db.db.tableExists) && HasId(old(db.db.rows), id) ==>
        && r == Success(Ok(Accepted("Feature deleted successfully", None)))
        && db.db.rows == DeleteRows(old(db.db.rows), id)
        && db.calls == old(db.calls) + [GetByIdCall(id), DeleteCall(id)]
    {
      var feature := db.GetFeatureById(id);
      if feature.Failure? {
        return Failure(feature.error);
      }
      if feature.value.None? {
        return Success(NotFound(Refusal(FeatureNotFound, None)));
      }
      var success := db.DeleteFeature(id);
      // The row was just read, so the DELETE removes it: the problem response is not produced.
      assert success == Success(true);
      r := Success(Ok(Accepted("Feature deleted successfully", None)));
    }
  }
}

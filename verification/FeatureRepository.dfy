/** The data-access object of the Features table: one statement per call,
    on a fresh connection to the shared database file. */
module Repositories {
  import opened Wrappers
  import opened Models
  import opened FeatureRows
  import opened Sqlite

  class FeatureRepository {
    /** The database file named by the connection string. */
    const db: SqliteDatabase
    /** The calls received so far. */
    ghost var calls: seq<StoreCall>

    ghost predicate Valid()
      reads this, db
    {
      db.Valid()
    }

    constructor (db: SqliteDatabase)
      requires db.Valid()
      ensures Valid() && this.db == db && calls == []
    {
      this.db := db;
      calls := [];
    }

    /** `GetAllAsync`: every row, ordered by name; the table is not changed. */
    method GetAll() returns (r: Result<seq<Feature>, Exception>)
      requires Valid()
      modifies this
      ensures Valid() && unchanged(db)
      ensures calls == old(calls) + [GetAllCall]
      ensures r == OnTable(db.tableExists, SortByName(db.rows))
      ensures r.Success? ==> IsListing(r.value, db.rows)
    {
      r := db.SelectAllOrderByName();
      calls := calls + [GetAllCall];
    }

    /** `GetByIdAsync`: the row with exactly this id, or null; the table is not changed. */
    method GetById(id: int) returns (r: Result<Option<Feature>, Exception>)
      requires Valid()
      modifies this
      ensures Valid() && unchanged(db)
      ensures calls == old(calls) + [GetByIdCall(id)]
      ensures r == OnTable(db.tableExists, FindById(db.rows, id))
    {
      r := db.SelectById(id);
      calls := calls + [GetByIdCall(id)];
    }

    /** `GetByNameAsync`: the row with exactly this name, or null; the table is not changed. */
    method GetByName(name: string) returns (r: Result<Option<Feature>, Exception>)
      requires Valid()
      modifies this
      ensures Valid() && unchanged(db)
      ensures calls == old(calls) + [GetByNameCall(name)]
      ensures r == OnTable(db.tableExists, FindByName(db.rows, name))
    {
      r := db.SelectByName(name);
      calls := calls + [GetByNameCall(name)];
    }

    /** `CreateAsync`: inserts one row with the given fields and returns its new id,
        held by no earlier row; a taken name is refused by the UNIQUE constraint. */
    method Create(f: Feature) returns (r: Result<int, Exception>)
      requires Valid()
      modifies this, db
      ensures Valid() && db.tableExists == old(db.tableExists)
      ensures calls == old(calls) + [CreateCall(f)]
      ensures r.Success? <==> old(db.tableExists) && !HasName(old(db.rows), f.name)
      ensures r.Success? ==> r.value == old(db.lastId) + 1 && db.lastId == r.value && !HasId(old(db.rows), r.value)
      ensures r.Success? ==> db.rows == old(db.rows) + [f.(id := r.value)]
      ensures r.Failure? ==> db.rows == old(db.rows) && db.lastId == old(db.lastId)
      ensures r.Failure? ==> r.error == (if old(db.tableExists) then UniqueNameViolation else NoSuchTable)
    {
      r := db.InsertRow(f);
      calls := calls + [CreateCall(f)];
    }

    /** `UpdateAsync`: overwrites every column but `Id` and `Name` of the row with
        the feature's id, leaves every other row alone, and reports whether a row matched. */
    method Update(f: Feature) returns (r: Result<bool, Exception>)
      requires Valid()
      modifies this, db
      ensures Valid() && db.tableExists == old(db.tableExists) && db.lastId == old(db.lastId)
      ensures calls == old(calls) + [UpdateCall(f)]
      ensures db.rows == UpdateRows(old(db.rows), f)
      ensures r == OnTable(db.tableExists, HasId(old(db.rows), f.id))
    {
      var affected := db.UpdateById(f);
      r := if affected.Success? then Success(affected.value > 0) else Failure(affected.error);
      calls := calls + [UpdateCall(f)];
    }

    /** `DeleteAsync`: removes the row with this id, if any, and reports whether one matched. */
    method Delete(id: int) returns (r: Result<bool, Exception>)
      requires Valid()
      modifies this, db
      ensures Valid() && db.tableExists == old(db.tableExists) && db.lastId == old(db.lastId)
      ensures calls == old(calls) + [DeleteCall(id)]
      ensures db.rows == DeleteRows(old(db.rows), id)
      ensures r == OnTable(db.tableExists, HasId(old(db.rows), id))
    {
      var affected := db.DeleteById(id);
      r := if affected.Success? then Success(affected.value > 0) else Failure(affected.error);
      calls := calls + [DeleteCall(id)];
    }

    /** `ExistsAsync(name, excludeId)`: whether a row other than `excludeId` has the name. */
    method Exists(name: string, excludeId: Option<int>) returns (r: Result<bool, Exception>)
      requires Valid()
      modifies this
      ensures Valid() && unchanged(db)
      ensures calls == old(calls) + [ExistsCall(name, excludeId)]
      ensures r == OnTable(db.tableExists, NameTaken(db.rows, name, excludeId))
    {
      var count := db.CountByName(name, excludeId);
      r := if count.Success? then Success(count.value > 0) else Failure(count.error);
      calls := calls + [ExistsCall(name, excludeId)];
    }
  }
}

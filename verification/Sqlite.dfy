/** The SQLite database file that holds the Features table, statement by
    statement: each method is one SQL statement the code executes, with the
    table's effect and result given by the functions of `FeatureRows`. */
module Sqlite {
  import opened Wrappers
  import opened Models
  import opened FeatureRows

  /** What SQLite raises for any statement on the table before it is created. */
  const NoSuchTable := Throw(SqliteException, "SQLite Error 1: 'no such table: Features'.")

  /** What SQLite raises when an INSERT repeats a name (`Name TEXT NOT NULL UNIQUE`). */
  const UniqueNameViolation := Throw(SqliteException, "SQLite Error 19: 'UNIQUE constraint failed: Features.Name'.")

  /** The outcome of a statement: its value once the table exists, "no such table" before. */
  function OnTable<T>(tableExists: bool, v: T): (r: Result<T, Exception>)
    ensures r.Success? <==> tableExists
    ensures r.Success? ==> r.value == v
    ensures r.Failure? ==> r.error == NoSuchTable
  {
    if tableExists then Success(v) else Failure(NoSuchTable)
  }

  /** A call a data-access object receives, in the order received; the services'
      contracts use the log to say which calls an operation makes and which it never makes. */
  datatype StoreCall =
    | GetAllCall
    | GetByIdCall(id: int)
    | GetByNameCall(name: string)
    | CreateCall(feature: Feature)
    | UpdateCall(feature: Feature)
    | DeleteCall(id: int)
    | ExistsCall(name: string, excludeId: Option<int>)

  /** Three calls logged one after the other. */
  lemma CallLogAppend3(log: seq<StoreCall>, a: StoreCall, b: StoreCall, c: StoreCall)
    ensures log + [a] + [b] + [c] == log + [a, b, c]
  {
  }

  /** The database: whether `Features` has been created, its rows in rowid
      order, and the AUTOINCREMENT sequence value (the largest id ever issued). */
  class SqliteDatabase {
    var tableExists: bool
    var rows: seq<Feature>
    var lastId: int

    /** Before `CREATE TABLE` there are no rows and no ids; after it, ids are
        increasing and issued, and names are unique. */
    ghost predicate Valid()
      reads this
    {
      && 0 <= lastId
      && (!tableExists ==> rows == [] && lastId == 0)
      && WellFormed(rows, lastId)
    }

    /** A new database file, without the Features table. */
    constructor ()
      ensures Valid() && !tableExists && rows == [] && lastId == 0
    {
      tableExists, rows, lastId := false, [], 0;
    }

    /** `CREATE TABLE IF NOT EXISTS Features (...)`: afterwards the table exists,
        and an existing table keeps every row and its sequence value. */
    method CreateTableIfNotExists()
      requires Valid()
      modifies this
      ensures Valid() && tableExists
      ensures rows == old(rows) && lastId == old(lastId)
    {
      tableExists := true;
    }

    /** `SELECT COUNT(*) FROM Features`. */
    method CountRows() returns (r: Result<nat, Exception>)
      requires Valid()
      ensures r == OnTable(tableExists, |rows|)
    {
      if !tableExists {
        return Failure(NoSuchTable);
      }
      r := Success(|rows|);
    }

    /** `SELECT * FROM Features ORDER BY Name`: every row once, in name order. */
    method SelectAllOrderByName() returns (r: Result<seq<Feature>, Exception>)
      requires Valid()
      ensures r == OnTable(tableExists, SortByName(rows))
      ensures r.Success? ==> IsListing(r.value, rows)
    {
      if !tableExists {
        return Failure(NoSuchTable);
      }
      SortByNameSorted(rows);
      r := Success(SortByName(rows));
    }

    /** `SELECT * FROM Features WHERE Id = @Id`, first row or null. */
    method SelectById(id: int) returns (r: Result<Option<Feature>, Exception>)
      requires Valid()
      ensures r == OnTable(tableExists, FindById(rows, id))
    {
      if !tableExists {
        return Failure(NoSuchTable);
      }
      r := Success(FindById(rows, id));
    }

    /** `SELECT * FROM Features WHERE Name = @Name`, first row or null. */
    method SelectByName(name: string) returns (r: Result<Option<Feature>, Exception>)
      requires Valid()
      ensures r == OnTable(tableExists, FindByName(rows, name))
    {
      if !tableExists {
        return Failure(NoSuchTable);
      }
      r := Success(FindByName(rows, name));
    }

    /** `SELECT COUNT(*) FROM Features WHERE Name = @Name [AND Id != @ExcludeId]`;
        the unique name keeps the count at most one. */
    method CountByName(name: string, excludeId: Option<int>) returns (r: Result<nat, Exception>)
      requires Valid()
      ensures r == OnTable(tableExists, CountMatching(rows, name, excludeId))
      ensures r.Success? ==> r.value <= 1
    {
      if !tableExists {
        return Failure(NoSuchTable);
      }
      CountMatchingAtMostOne(rows, name, excludeId);
      r := Success(CountMatching(rows, name, excludeId));
    }

    /** `INSERT INTO Features (Name, ..., LastUsed) VALUES (...); SELECT last_insert_rowid();`
        The row gets the next AUTOINCREMENT id (the `Id` of `f` is not a column of
        the statement); a taken name violates the UNIQUE constraint and leaves the
        table and the sequence as they were. */
    method InsertRow(f: Feature) returns (r: Result<int, Exception>)
      requires Valid()
      modifies this
      ensures Valid() && tableExists == old(tableExists)
      ensures r.Success? <==> old(tableExists) && !HasName(old(rows), f.name)
      ensures r.Success? ==> r.value == old(lastId) + 1 && lastId == r.value && !HasId(old(rows), r.value)
      ensures r.Success? ==> rows == old(rows) + [f.(id := r.value)]
      ensures r.Failure? ==> rows == old(rows) && lastId == old(lastId)
      ensures r.Failure? ==> r.error == (if old(tableExists) then UniqueNameViolation else NoSuchTable)
    {
      if !tableExists {
        return Failure(NoSuchTable);
      }
      if FindByName(rows, f.name).Some? {
        return Failure(UniqueNameViolation);
      }
      var id := lastId + 1;
      var row := f.(id := id);
      assert forall i :: 0 <= i < |rows| ==> rows[i].id < id && rows[i].name != row.name;
      rows := rows + [row];
      lastId := id;
      r := Success(id);
    }

    /** `UPDATE Features SET Description = @Description, ..., LastUsed = @LastUsed
        WHERE Id = @Id`; the result is the number of rows affected. */
    method UpdateById(f: Feature) returns (r: Result<nat, Exception>)
      requires Valid()
      modifies this
      ensures Valid() && tableExists == old(tableExists) && lastId == old(lastId)
      ensures rows == UpdateRows(old(rows), f)
      ensures r == OnTable(tableExists, CountId(old(rows), f.id))
      ensures r.Success? ==> r.value <= 1
    {
      if !tableExists {
        return Failure(NoSuchTable);
      }
      UpdateRowsWellFormed(rows, lastId, f);
      CountIdAtMostOne(rows, f.id);
      r := Success(CountId(rows, f.id));
      rows := UpdateRows(rows, f);
    }

    /** `DELETE FROM Features WHERE Id = @Id`; the result is the number of rows affected. */
    method DeleteById(id: int) returns (r: Result<nat, Exception>)
      requires Valid()
      modifies this
      ensures Valid() && tableExists == old(tableExists) && lastId == old(lastId)
      ensures rows == DeleteRows(old(rows), id)
      ensures r == OnTable(tableExists, CountId(old(rows), id))
      ensures r.Success? ==> r.value <= 1
    {
      if !tableExists {
        return Failure(NoSuchTable);
      }
      DeleteRowsWellFormed(rows, lastId, id);
      CountIdAtMostOne(rows, id);
      r := Success(CountId(rows, id));
      rows := DeleteRows(rows, id);
    }

    /** The INSERT statement above executed once per feature, in order, as the
        seeding steps do; none of the names may be taken, by the table or by
        another of the features. */
    method InsertEach(features: seq<Feature>)
      requires Valid() && tableExists && NamesUnique(features)
      requires forall k :: 0 <= k < |features| ==> !HasName(rows, features[k].name)
      modifies this
      ensures Valid() && tableExists
      ensures rows == old(rows) + Numbered(features, old(lastId) + 1)
      ensures lastId == old(lastId) + |features|
    {
      ghost var first := lastId + 1;
      for i := 0 to |features|
        invariant Valid() && tableExists
        invariant rows == old(rows) + Numbered(features[..i], first)
        invariant lastId == first - 1 + i
      {
        forall j | 0 <= j < |rows| ensures rows[j].name != features[i].name {
          if j >= |old(rows)| {
            assert rows[j].name == features[j - |old(rows)|].name;
          }
        }
        var id := InsertRow(features[i]);
        assert Numbered(features[..i + 1], first) == Numbered(features[..i], first) + [features[i].(id := first + i)];
      }
      assert features[..|features|] == features;
    }
  }
}

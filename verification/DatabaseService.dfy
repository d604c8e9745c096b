/** The data-access service the API controller uses: the same statements as the
    repository, plus creating the table and seeding seven features into an empty one. */
module DatabaseServices {
  import opened Wrappers
  import opened Models
  import opened FeatureRows
  import opened Sqlite

  /** The seven features seeded into an empty table, in insertion order. */
  const DatabaseSeedRows: seq<Seed> := [
    Seed("AdBlock", "Block unwanted advertisements and tracking scripts", "Active", "Security",
         "mdi mdi-shield-check mdi-24px text-blue-500", 10 * Day, 15420, 98, 12, Some(2 * Hour)),
    Seed("DevTools", "Developer tools and debugging utilities", "Active", "Development",
         "mdi mdi-tools mdi-24px text-green-500", 13 * Day, 8920, 95, 45, Some(1 * Hour)),
    Seed("Database", "Database administration and monitoring tools", "Active", "Data",
         "mdi mdi-database mdi-24px text-purple-500", 15 * Day, 5670, 99, 3, Some(30 * Minute)),
    Seed("UserManagement", "User accounts, roles, and permissions management", "Active", "Administration",
         "mdi mdi-account-group mdi-24px text-orange-500", 17 * Day, 12340, 97, 23, Some(15 * Minute)),
    Seed("Analytics", "System analytics and reporting dashboard", "Pending", "Reporting",
         "mdi mdi-chart-line mdi-24px text-red-500", 20 * Day, 0, 0, 0, None),
    Seed("Backup", "System backup and data recovery tools", "Active", "System",
         "mdi mdi-backup-restore mdi-24px text-indigo-500", 22 * Day, 2340, 100, 0, Some(1 * Day)),
    Seed("Notifications", "System notification and alert management", "Disabled", "Communication",
         "mdi mdi-bell mdi-24px text-pink-500", 27 * Day, 0, 0, 0, None) ]

  /** The seeds name seven distinct features... */
  lemma DatabaseSeedNamesDistinct()
    ensures |DatabaseSeedRows| == 7 && SeedNamesDistinct(DatabaseSeedRows)
  {
  }

  /** ... all dated in the past. */
  lemma DatabaseSeedsInPast()
    ensures SeedsInPast(DatabaseSeedRows)
  {
  }

  class DatabaseService {
    /** The database file named by the connection string. */
    const db: SqliteDatabase
    /** The calls received so far. */
    ghost var calls: seq<StoreCall>

    ghost predicate Valid()
      reads this, db
    {
      db.Valid()
    }

    constructor (db: SqliteDatabase)
      requires db.Valid()
      ensures Valid() && this.db == db && calls == []
    {
      this.db := db;
      calls := [];
    }

    /** `GetAllFeaturesAsync`: every row, ordered by name. */
    method GetAllFeatures() returns (r: Result<seq<Feature>, Exception>)
      requires Valid()
      modifies this
      ensures Valid() && unchanged(db)
      ensures calls == old(calls) + [GetAllCall]
      ensures r == OnTable(db.tableExists, SortByName(db.rows))
      ensures r.Success? ==> IsListing(r.value, db.rows)
    {
      r := db.SelectAllOrderByName();
      calls := calls + [GetAllCall];
    }

    /** `GetFeatureByNameAsync`: the exact-name match, or null. */
    method GetFeatureByName(featureName: string) returns (r: Result<Option<Feature>, Exception>)
      requires Valid()
      modifies this
      ensures Valid() && unchanged(db)
      ensures calls == old(calls) + [GetByNameCall(featureName)]
      ensures r == OnTable(db.tableExists, FindByName(db.rows, featureName))
    {
      r := db.SelectByName(featureName);
      calls := calls + [GetByNameCall(featureName)];
    }

    /** The lookup by id the controller calls; it behaves as the repository's `GetByIdAsync`. */
    method GetFeatureById(id: int) returns (r: Result<Option<Feature>, Exception>)
      requires Valid()
      modifies this
      ensures Valid() && unchanged(db)
      ensures calls == old(calls) + [GetByIdCall(id)]
      ensures r == OnTable(db.tableExists, FindById(db.rows, id))
    {
      r := db.SelectById(id);
      calls := calls + [GetByIdCall(id)];
    }

    /** `CreateFeatureAsync`: inserts one row and returns its fresh id. */
    method CreateFeature(f: Feature) returns (r: Result<int, Exception>)
      requires Valid()
      modifies this, db
      ensures Valid() && db.tableExists == old(db.tableExists)
      ensures calls == old(calls) + [CreateCall(f)]
      ensures r.Success? <==> old(db.tableExists) && !HasName(old(db.rows), f.name)
      ensures r.Success? ==> r.value == old(db.lastId) + 1 && db.lastId == r.value && !HasId(old(db.rows), r.value)
      ensures r.Success? ==> db.rows == old(db.rows) + [f.(id := r.value)]
      ensures r.Failure? ==> db.rows == old(db.rows) && db.lastId == old(db.lastId)
      ensures r.Failure? ==> r.error == (if old(db.tableExists) then UniqueNameViolation else NoSuchTable)
    {
      r := db.InsertRow(f);
      calls := calls + [CreateCall(f)];
    }

    /** `UpdateFeatureAsync`: never changes `Id` or `Name`; true exactly when a row has the id. */
    method UpdateFeature(f: Feature) returns (r: Result<bool, Exception>)
      requires Valid()
      modifies this, db
      ensures Valid() && db.tableExists == old(db.tableExists) && db.lastId == old(db.lastId)
      ensures calls == old(calls) + [UpdateCall(f)]
      ensures db.rows == UpdateRows(old(db.rows), f)
      ensures r == OnTable(db.tableExists, HasId(old(db.rows), f.id))
    {
      var affected := db.UpdateById(f);
      r := if affected.Success? then Success(affected.value > 0) else Failure(affected.error);
      calls := calls + [UpdateCall(f)];
    }

    /** `DeleteFeatureAsync`: true exactly when a row was removed. */
    method DeleteFeature(id: int) returns (r: Result<bool, Exception>)
      requires Valid()
      modifies this, db
      ensures Valid() && db.tableExists == old(db.tableExists) && db.lastId == old(db.lastId)
      ensures calls == old(calls) + [DeleteCall(id)]
      ensures db.rows == DeleteRows(old(db.rows), id)
      ensures r == OnTable(db.tableExists, HasId(old(db.rows), id))
    {
      var affected := db.DeleteById(id);
      r := if affected.Success? then Success(affected.value > 0) else Failure(affected.error);
      calls := calls + [DeleteCall(id)];
    }

    /** The existence check the controller calls; it behaves as the repository's `ExistsAsync`. */
    method FeatureExists(name: string, excludeId: Option<int>) returns (r: Result<bool, Exception>)
      requires Valid()
      modifies this
      ensures Valid() && unchanged(db)
      ensures calls == old(calls) + [ExistsCall(name, excludeId)]
      ensures r == OnTable(db.tableExists, NameTaken(db.rows, name, excludeId))
    {
      var count := db.CountByName(name, excludeId);
      r := if count.Success? then Success(count.value > 0) else Failure(count.error);
      calls := calls + [ExistsCall(name, excludeId)];
    }

    /** `InitializeDatabaseAsync`. Opening the connection is the one step that
        can fail here; `openError` is its outcome, and with no catch in the
        method it propagates to the caller with the table untouched. Otherwise
        the table exists afterwards and is seeded exactly when it held no row. */
    method InitializeDatabase(now: Timestamp, openError: Option<Exception>) returns (r: Result<(), Exception>)
      requires Valid()
      modifies db
      ensures Valid()
      ensures openError.Some? ==> r == Failure(openError.value) && unchanged(db)
      ensures openError.None? ==> r == Success(()) && db.tableExists
      ensures openError.None? ==> db.rows == SeedIfEmpty(old(db.rows), old(db.lastId), Seeded(DatabaseSeedRows, now))
      ensures openError.None? && old(db.rows) != [] ==> db.lastId == old(db.lastId)
      ensures openError.None? && old(db.rows) == [] ==> db.lastId == old(db.lastId) + |DatabaseSeedRows|
    {
      if openError.Some? {
        return Failure(openError.value);
      }
      db.CreateTableIfNotExists();
      var count := db.CountRows();
      if count.value == 0 {
        SeedFeatures(now);
      }
      r := Success(());
    }

    /** `SeedFeaturesAsync`: insert the seeds one by one, in order; none of their
        names may be in the table already. */
    method SeedFeatures(now: Timestamp)
      requires Valid() && db.tableExists
      requires forall k :: 0 <= k < |DatabaseSeedRows| ==> !HasName(db.rows, DatabaseSeedRows[k].name)
      modifies db
      ensures Valid() && db.tableExists
      ensures db.rows == old(db.rows) + Numbered(Seeded(DatabaseSeedRows, now), old(db.lastId) + 1)
      ensures db.lastId == old(db.lastId) + |DatabaseSeedRows|
    {
      DatabaseSeedNamesDistinct();
      DatabaseSeedsInPast();
      SeededValid(DatabaseSeedRows, now);
      db.InsertEach(Seeded(DatabaseSeedRows, now));
    }
  }
}

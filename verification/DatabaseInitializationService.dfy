/** `DatabaseInitializationService`: an initialiser that creates the Features
    table when it is absent and seeds six features into it when it is empty,
    rethrowing any failure. Program.cs does not register it. */
module DatabaseInitialization {
  import opened Wrappers
  import opened Models
  import opened FeatureRows
  import opened Sqlite

  // The Markdown descriptions of the seeds.

  const AdBlockMarkdown: string :=
    "# Ad Block Feature\n\n" +
    "**Blocks unwanted advertisements** and tracking scripts from loading on your system.\n\n" +
    "## Features\n" +
    "- *Real-time filtering*\n" +
    "- `Custom filter lists`\n" +
    "- **Performance optimized**\n\n" +
    "> Provides enhanced privacy and faster browsing experience."

  const DevToolsMarkdown: string :=
    "# Developer Tools\n\n" +
    "Essential **debugging utilities** and development aids.\n\n" +
    "## Available Tools\n" +
    "1. *Code Inspector*\n" +
    "2. `Console Logger`\n" +
    "3. **Performance Monitor**\n" +
    "4. Network Analyzer\n\n" +
    "Supports multiple programming languages and frameworks."

  const DatabaseMarkdown: string :=
    "# Database Management\n\n" +
    "**Comprehensive database administration** and monitoring tools.\n\n" +
    "## Capabilities\n" +
    "- *Query Builder*\n" +
    "- `Schema Management`\n" +
    "- **Performance Tuning**\n" +
    "- Backup & Recovery\n\n" +
    "> Supports SQLite, MySQL, PostgreSQL, and MongoDB."

  const UserManagementMarkdown: string :=
    "# User Management System\n\n" +
    "**Complete user account management** with role-based access control.\n\n" +
    "## Features\n" +
    "- *User Registration*\n" +
    "- `Role Assignment`\n" +
    "- **Permission Management**\n" +
    "- Audit Logging\n\n" +
    "Supports LDAP integration and SSO authentication."

  const AnalyticsMarkdown: string :=
    "# Analytics Dashboard\n\n" +
    "**Advanced system analytics** and reporting capabilities.\n\n" +
    "## Metrics Tracked\n" +
    "- *User Activity*\n" +
    "- `System Performance`\n" +
    "- **Error Rates**\n" +
    "- Resource Usage\n\n" +
    "> Real-time data visualization with customizable reports."

  const BackupMarkdown: string :=
    "# Backup & Restore\n\n" +
    "**Automated backup system** with data recovery capabilities.\n\n" +
    "## Backup Types\n" +
    "1. *Full System Backup*\n" +
    "2. `Incremental Backup`\n" +
    "3. **Differential Backup**\n" +
    "4. File-level Backup\n\n" +
    "Supports cloud storage integration and encryption."

  /** The six features seeded into an empty table, in insertion order; the
      descriptions are Markdown. */
  const InitializationSeedRows: seq<Seed> := [
    Seed("AdBlock", AdBlockMarkdown, "Active", "Security",
         "mdi mdi-shield-check mdi-24px text-blue-500", 10 * Day, 15420, 98, 12, Some(2 * Hour)),
    Seed("DevTools", DevToolsMarkdown, "Active", "Development",
         "mdi mdi-tools mdi-24px text-green-500", 13 * Day, 8920, 95, 45, Some(1 * Hour)),
    Seed("Database", DatabaseMarkdown, "Active", "Data",
         "mdi mdi-database mdi-24px text-purple-500", 15 * Day, 5670, 99, 3, Some(30 * Minute)),
    Seed("UserManagement", UserManagementMarkdown, "Active", "Administration",
         "mdi mdi-account-group mdi-24px text-orange-500", 17 * Day, 12340, 97, 23, Some(15 * Minute)),
    Seed("Analytics", AnalyticsMarkdown, "Pending", "Reporting",
         "mdi mdi-chart-line mdi-24px text-red-500", 20 * Day, 0, 0, 0, None),
    Seed("Backup", BackupMarkdown, "Active", "Data",
         "mdi mdi-cloud-upload mdi-24px text-indigo-500", 5 * Day, 3420, 99, 5, Some(6 * Hour)) ]

  /** The seeds name six distinct features... */
  lemma InitializationSeedNamesDistinct()
    ensures |InitializationSeedRows| == 6 && SeedNamesDistinct(InitializationSeedRows)
  {
  }

  /** ... all dated in the past. */
  lemma InitializationSeedsInPast()
    ensures SeedsInPast(InitializationSeedRows)
  {
  }

  class DatabaseInitializationService {
    /** The database file named by the connection string. */
    const db: SqliteDatabase

    constructor (db: SqliteDatabase)
      requires db.Valid()
      ensures this.db == db
    {
      this.db := db;
    }

    /** `InitializeDatabaseAsync`. Opening the connection is the one step that
        can fail here; `openError` is its outcome. A failure is rethrown with the
        table untouched; otherwise the table exists afterwards and is seeded
        exactly when it held no row. */
    method InitializeDatabase(now: Timestamp, openError: Option<Exception>) returns (r: Result<(), Exception>)
      requires db.Valid()
      modifies db
      ensures db.Valid()
      ensures openError.Some? ==> r == Failure(openError.value) && unchanged(db)
      ensures openError.None? ==> r == Success(()) && db.tableExists
      ensures openError.None? ==> db.rows == SeedIfEmpty(old(db.rows), old(db.lastId), Seeded(InitializationSeedRows, now))
      ensures openError.None? && old(db.rows) != [] ==> db.lastId == old(db.lastId)
      ensures openError.None? && old(db.rows) == [] ==> db.lastId == old(db.lastId) + |InitializationSeedRows|
    {
      if openError.Some? {
        return Failure(openError.value);
      }
      db.CreateTableIfNotExists();
      var count := db.CountRows();
      if count.value == 0 {
        SeedFeatures(now);
      }
      r := Success(());
    }

    /** `SeedFeaturesAsync`: insert the seeds one by one, in order; none of their
        names may be in the table already. */
    method SeedFeatures(now: Timestamp)
      requires db.Valid() && db.tableExists
      requires forall k :: 0 <= k < |InitializationSeedRows| ==> !HasName(db.rows, InitializationSeedRows[k].name)
      modifies db
      ensures db.Valid() && db.tableExists
      ensures db.rows == old(db.rows) + Numbered(Seeded(InitializationSeedRows, now), old(db.lastId) + 1)
      ensures db.lastId == old(db.lastId) + |InitializationSeedRows|
    {
      InitializationSeedNamesDistinct();
      InitializationSeedsInPast();
      SeededValid(InitializationSeedRows, now);
      db.InsertEach(Seeded(InitializationSeedRows, now));
    }
  }
}

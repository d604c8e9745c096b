# RazorAdmin features: a Dafny model

RazorAdmin is a small ASP.NET Core admin application. Its logic is about one SQLite table, `Features`. Each row has:

- an AUTOINCREMENT `Id`;
- a UNIQUE `Name`;
- description, status, category and icon texts;
- a last-updated date;
- three counters;
- an optional last-used date.

The application has these parts around the table:

- **Data-access layers:** a repository and a database service, each one SQL statement per call. The database service can also create the table and seed it.
- **Start-up initialisation:** at start-up the program calls the database service's `InitializeDatabaseAsync` (Program.cs:32-36, modelled as `DatabaseServices.DatabaseService.InitializeDatabase`), which creates the table when it is absent and seeds it when it is empty. A second initialiser class, `DatabaseInitializationService`, does the same with six seeds and logs and rethrows a failure; the program never registers it.
- **A feature service:** it validates a create request, checks the name, inserts and re-fetches. For an update it fetches, patches, persists and re-fetches.
- **A REST controller:** it turns the same sequences into HTTP results.
- **A global exception handler:** a middleware class that would turn an escaping exception into a JSON error envelope. Program.cs never installs it: outside development `UseExceptionHandler("/Home/Error")` runs instead (Program.cs:14-17). The model states what the handler writes when it is invoked.
- **An MVC controller and a Razor page:** they show a fixed catalogue of feature data, looked up by lower-cased name.

The model is one Dafny module per source unit:

| module (file) | models |
|---|---|
| `Wrappers`, `Text` | `Option`/`Result`, and the .NET string operations used: `IsNullOrWhiteSpace`, `string.Length` in UTF-16 units, `ToLower`, `int.ToString`, `string.Join` |
| `Models` (Models.dfy) | the entity, the request, response and envelope records, the exception kinds, and the data-annotation validation of a create request |
| `FeatureExtensions` | `ToResponse`, `ToEntity`, and `UpdateFromRequest`, both as a function and as the in-place update of a mutable entity object |
| `FeatureRows` | the table as rows in rowid order, and what each SQL statement means for it: BINARY `ORDER BY Name`, lookups, `COUNT(*)`, `UPDATE`, `DELETE`, numbering on insert, seeding |
| `Sqlite` | the database file as a class (table exists?, rows, AUTOINCREMENT sequence), with one method per statement |
| `Repositories`, `DatabaseServices` | the two data-access classes; each keeps a ghost log of the calls it receives |
| `DatabaseInitialization` | `DatabaseInitializationService` and its six seeds |
| `FeatureServices` | the feature service over the repository |
| `ApiControllers` | `FeaturesApiController` and its action results and status codes |
| `Middleware` | `GlobalExceptionHandler` and the HTTP response it writes |
| `FeaturesMvc`, `FeatureDetailPages` | the MVC `FeaturesController` and the `FeatureDetail` page model |

Time is an abstract integer clock passed in as `now`. A storage failure is a `Result.Failure` carrying the exception: an operation on a database without the table fails with SQLite's "no such table" error. The table's invariant has three parts:

- ids ascend;
- every id is positive and at most the sequence value;
- names are unique.

Every state-changing method preserves this invariant (`Valid()`), so names stay unique across every operation.

Three behaviours of the code are worth stating on their own, because a reader might expect otherwise:

- **An update that matches no row after a successful fetch.** The service throws "Failed to update …" (an invalid-operation error), and the controller answers with a problem response. In a sequential run this branch cannot be reached, and the model proves so.
- **A name conflict detected only by the UNIQUE constraint.** The code does not catch it: the `SqliteException` escapes the repository and the service. `InsertRow` models the violation, and the pre-check makes it unreachable from the service and the controller. If `GlobalExceptionHandler` were installed, it would map that exception to 500.
- **The service's "not found" on update.** The service throws an `InvalidOperationException`, not a dedicated not-found error. If `GlobalExceptionHandler` were installed, it would map that exception to 400.

## Model

| member | source | states |
|---|---|---|
| Text.ToLower | src/RazordAdmin/Controllers/FeaturesController.cs:58 | lower-casing keeps the length and lower-cases each character in place |
| Text.IsWhiteSpace | src/RazordAdmin/Models/FeatureExtensions.cs:42-51 | the ASCII space, tab, line feed and carriage return are white space, no ASCII letter or digit is, and every white-space character is a single UTF-16 unit |
| Text.IsBlank | src/RazordAdmin/Models/FeatureExtensions.cs:42-51 | the empty string is blank, a string starting with a non-white-space character is not, and a blank string's UTF-16 length is its character count |
| Text.BlankConcat | src/RazordAdmin/Models/FeatureExtensions.cs:42-51 | a concatenation is blank exactly when both parts are |
| Text.Utf16Length | src/RazordAdmin/Models/FeatureDto.cs:15 | between one and two units per character: exactly one each when no character is supplementary, exactly two each when all are |
| Text.Utf16LengthConcat | src/RazordAdmin/Models/FeatureDto.cs:15 | the UTF-16 length of a concatenation is the sum of the lengths of its parts |
| Text.ToLowerIdempotent | src/RazordAdmin/Controllers/FeaturesController.cs:58 | lower-casing an already lower-cased name changes nothing |
| Models.CheckField | src/RazordAdmin/Models/FeatureDto.cs:14-47 | `[Required]` fails exactly on a blank value and then hides the length check; `[StringLength(n)]` fails exactly on a non-blank value of more than n UTF-16 code units; at most one error, always for this field |
| Models.Validate | src/RazordAdmin/Models/FeatureDto.cs:14-47 | no error exactly when the request meets every constraint; at most five errors |
| Models.ValidateMembership | src/RazordAdmin/Models/FeatureDto.cs:14-47 | an error is reported exactly when it is a failed annotation of one of the five properties |
| Models.ValidateReportsRequired | src/RazordAdmin/Models/FeatureDto.cs:14-47 | each of the five fields is reported as required if and only if it is blank |
| Models.ValidateReportsTooLong | src/RazordAdmin/Models/FeatureDto.cs:14-47 | Name (100), Status (50), Category (50) and Icon (200) are reported too long if and only if they are non-blank and their UTF-16 length is over the limit; Description never is |
| Models.SupplementaryNameTooLong | src/RazordAdmin/Models/FeatureDto.cs:14-16 | a name of more than fifty supplementary characters (emoji, say) is reported too long and the request is invalid |
| Models.ErrorMessage | src/RazordAdmin/Services/FeatureService.cs:69 | the default message of `[Required]` starts "The " and of `[StringLength]` "The field ", each followed by the field's name |
| Models.ErrorMessages | src/RazordAdmin/Services/FeatureService.cs:69 | one message per failed annotation, in order |
| Models.EmptyNameIsInvalid | src/RazordAdmin/Models/FeatureDto.cs:14-16 | a request with an empty name is invalid, and the messages name the Name field |
| Models.DefaultCreateRequestIsInvalid | src/RazordAdmin/Models/FeatureDto.cs:16-47 | a default-constructed request fails exactly the five `[Required]` checks, in declaration order |
| FeatureExtensions.ToResponse | src/RazordAdmin/Models/FeatureExtensions.cs:5-21 | all eleven fields are copied unchanged |
| FeatureExtensions.ToResponseInjective | src/RazordAdmin/Models/FeatureExtensions.cs:5-21 | two features with equal responses are equal: no field is lost |
| FeatureExtensions.ToEntity | src/RazordAdmin/Models/FeatureExtensions.cs:23-38 | the five texts come from the request; id 0, counters 0, no last use, last updated `now` |
| FeatureExtensions.Supplied | src/RazordAdmin/Models/FeatureExtensions.cs:42-51 | a null, empty or blank value is not supplied; a value starting with a visible character is |
| FeatureExtensions.UpdatedFromRequest | src/RazordAdmin/Models/FeatureExtensions.cs:40-55 | id, name, counters and last use are kept; last updated becomes `now` |
| FeatureExtensions.UpdateOverwritesSuppliedFields | src/RazordAdmin/Models/FeatureExtensions.cs:42-52 | each of the four texts takes the request's value exactly when it is non-null and not blank, and is kept otherwise |
| FeatureExtensions.UpdateFromRequestIdempotent | src/RazordAdmin/Models/FeatureExtensions.cs:40-55 | applying a request twice at the same time equals applying it once |
| FeatureExtensions.EmptyUpdateOnlyTouchesLastUpdated | src/RazordAdmin/Models/FeatureExtensions.cs:40-55 | a request with no supplied field changes only last updated |
| FeatureExtensions.UpdateAdvancesLastUpdated | src/RazordAdmin/Models/FeatureExtensions.cs:54 | with a later clock, last updated strictly advances |
| FeatureExtensions.UpdatesCompose | src/RazordAdmin/Models/FeatureExtensions.cs:40-55 | two updates equal one update with the merged request at the later time |
| FeatureExtensions.FeatureEntity.constructor | src/RazordAdmin/Models/Feature.cs:3-16 | the object holds exactly the row's values |
| FeatureExtensions.FeatureEntity.UpdateFromRequest | src/RazordAdmin/Models/FeatureExtensions.cs:40-55 | the in-place conditional assignments leave the object holding `UpdatedFromRequest` of its old value |
| FeatureExtensions.ApplyUpdate | src/RazordAdmin/Services/FeatureService.cs:110 | a fetched row patched in place as an object yields `UpdatedFromRequest` of the row |
| FeatureRows.NameLeTotal | src/RazordAdmin/Repositories/FeatureRepository.cs:19 | the BINARY collation orders any two names |
| FeatureRows.NameLeTransitive | src/RazordAdmin/Repositories/FeatureRepository.cs:19 | the collation is transitive |
| FeatureRows.NameLeAntisymmetric | src/RazordAdmin/Repositories/FeatureRepository.cs:19 | names that collate both ways are equal |
| FeatureRows.InsertByName | src/RazordAdmin/Repositories/FeatureRepository.cs:19 | inserting into a listing adds exactly that row |
| FeatureRows.SortByName | src/RazordAdmin/Repositories/FeatureRepository.cs:16-20 | the ordered listing is a permutation of the rows |
| FeatureRows.InsertByNameSorted | src/RazordAdmin/Repositories/FeatureRepository.cs:19 | inserting into a name-ordered listing keeps it ordered |
| FeatureRows.SortByNameSorted | src/RazordAdmin/Repositories/FeatureRepository.cs:16-20 | the listing is in ascending name order |
| FeatureRows.ElementOfPermutation | src/RazordAdmin/Repositories/FeatureRepository.cs:19 | every row of one arrangement of the same rows is found in the other |
| FeatureRows.ListingIsUnique | src/RazordAdmin/Repositories/FeatureRepository.cs:19 | two name-ordered arrangements of the same rows are equal when names identify rows |
| FeatureRows.ListingIsSortByName | src/RazordAdmin/Repositories/FeatureRepository.cs:16-20 | with unique names, every name-ordered permutation of the rows is the listing: the result of `ORDER BY Name` is determined |
| FeatureRows.ListingIgnoresInsertionOrder | src/RazordAdmin/Repositories/FeatureRepository.cs:16-20 | the listing does not depend on the order in which the rows were inserted |
| FeatureRows.FindById | src/RazordAdmin/Repositories/FeatureRepository.cs:22-28 | a found row is in the table and has the id; nothing is found exactly when no row has the id |
| FeatureRows.FindByName | src/RazordAdmin/Repositories/FeatureRepository.cs:30-36 | a found row is in the table and has the name; nothing is found exactly when no row has the name |
| FeatureRows.FindByIdFindsRow | src/RazordAdmin/Repositories/FeatureRepository.cs:22-28 | with ascending ids, looking up a row's id finds that row |
| FeatureRows.FindByNameFindsRow | src/RazordAdmin/Repositories/FeatureRepository.cs:30-36 | with unique names, looking up a row's name finds that row |
| FeatureRows.NameTakenWithoutExclusion | src/RazordAdmin/Repositories/FeatureRepository.cs:73-75 | without an excluded id, the existence query holds exactly when a row has the name |
| FeatureRows.CountMatching | src/RazordAdmin/Repositories/FeatureRepository.cs:70-83 | the count is positive exactly when some row other than the excluded id has the name |
| FeatureRows.CountMatchingAtMostOne | src/RazordAdmin/Repositories/FeatureRepository.cs:70-83 | with unique names the count is at most one |
| FeatureRows.CountId | src/RazordAdmin/Repositories/FeatureRepository.cs:59-60 | the rows affected are positive exactly when a row has the id |
| FeatureRows.CountIdAtMostOne | src/RazordAdmin/Repositories/FeatureRepository.cs:59-60 | with ascending ids at most one row is affected |
| FeatureRows.SetColumns | src/RazordAdmin/Repositories/FeatureRepository.cs:53-57 | the UPDATE writes every column of the feature except Id and Name |
| FeatureRows.UpdateRows | src/RazordAdmin/Repositories/FeatureRepository.cs:49-61 | same number of rows; every id and name is kept; the row with the id takes the feature's values under its own name; every other row is unchanged |
| FeatureRows.UpdateRowsWellFormed | src/RazordAdmin/Repositories/FeatureRepository.cs:49-61 | the UPDATE keeps ids ascending and issued, and names unique |
| FeatureRows.DeleteRows | src/RazordAdmin/Repositories/FeatureRepository.cs:63-68 | the rows shrink by the number removed, and no remaining row has the id |
| FeatureRows.DeleteRowsMembers | src/RazordAdmin/Repositories/FeatureRepository.cs:63-68 | a row remains exactly when it was there and has another id |
| FeatureRows.DeleteRowsWellFormed | src/RazordAdmin/Repositories/FeatureRepository.cs:63-68 | the DELETE keeps the table well formed |
| FeatureRows.DeleteRowsAt | src/RazordAdmin/Repositories/FeatureRepository.cs:63-68 | the DELETE removes just the row with the id and keeps the others in order |
| FeatureRows.DeleteRowsNoMatch | src/RazordAdmin/Repositories/FeatureRepository.cs:63-68 | deleting an absent id leaves the table as it is |
| FeatureRows.FindByIdAfterUpdate | src/RazordAdmin/Services/FeatureService.cs:118-122 | after updating an existing row, re-reading its id yields exactly the values written |
| FeatureRows.Numbered | src/RazordAdmin/Services/DatabaseService.cs:204-207 | inserts one after another get consecutive ids, in array order |
| FeatureRows.Seeded | src/RazordAdmin/Services/DatabaseService.cs:105-198 | one feature per seed, in order, with the seed's name |
| FeatureRows.SeededValid | src/RazordAdmin/Services/DatabaseService.cs:105-198 | seeds with distinct names and past offsets give features with unique names, dated before `now` |
| FeatureRows.SeedIfEmpty | src/RazordAdmin/Services/DatabaseService.cs:95-100 | a table with rows is left as it is; an empty table receives exactly the seeds, numbered in order from the next id |
| FeatureRows.SeedIfEmptyIdempotent | src/RazordAdmin/Services/DatabaseInitializationService.cs:47-57 | with at least one seed, the table is non-empty afterwards, and a second run changes nothing |
| Sqlite.OnTable | src/RazordAdmin/Services/DatabaseService.cs:78-93 | a statement succeeds with its value exactly when the table exists, and fails with "no such table" otherwise |
| Sqlite.SqliteDatabase.constructor | src/RazordAdmin/Services/DatabaseService.cs:23 | a new database file has no table, no rows and no ids issued |
| Sqlite.SqliteDatabase.CreateTableIfNotExists | src/RazordAdmin/Services/DatabaseInitializationService.cs:30-45 | the table exists afterwards; an existing table keeps its rows and sequence, so repeating it has no effect |
| Sqlite.SqliteDatabase.CountRows | src/RazordAdmin/Services/DatabaseService.cs:96 | the number of rows |
| Sqlite.SqliteDatabase.SelectAllOrderByName | src/RazordAdmin/Repositories/FeatureRepository.cs:16-20 | every row once, in name order |
| Sqlite.SqliteDatabase.SelectById | src/RazordAdmin/Repositories/FeatureRepository.cs:22-28 | the row with the id, or none |
| Sqlite.SqliteDatabase.SelectByName | src/RazordAdmin/Repositories/FeatureRepository.cs:30-36 | the row with the name, or none |
| Sqlite.SqliteDatabase.CountByName | src/RazordAdmin/Repositories/FeatureRepository.cs:70-83 | the filtered count, which is at most one |
| Sqlite.SqliteDatabase.InsertRow | src/RazordAdmin/Repositories/FeatureRepository.cs:38-47 | succeeds exactly when the table exists and the name is free; it then appends the feature under the next id, which no earlier row holds; otherwise nothing changes and the error is the missing table or the UNIQUE violation |
| Sqlite.SqliteDatabase.UpdateById | src/RazordAdmin/Repositories/FeatureRepository.cs:49-61 | the table becomes `UpdateRows`; the rows affected (at most one) are the rows with the id |
| Sqlite.SqliteDatabase.DeleteById | src/RazordAdmin/Repositories/FeatureRepository.cs:63-68 | the table becomes `DeleteRows`; the rows affected (at most one) are the rows with the id |
| Sqlite.SqliteDatabase.InsertEach | src/RazordAdmin/Services/DatabaseService.cs:204-207 | the loop of inserts appends the features in order under consecutive fresh ids |
| Repositories.FeatureRepository.constructor | src/RazordAdmin/Repositories/FeatureRepository.cs:12-14 | a repository on the database, with no call made yet |
| Repositories.FeatureRepository.GetAll | src/RazordAdmin/Repositories/FeatureRepository.cs:16-20 | the name-ordered listing of every row; the table is unchanged |
| Repositories.FeatureRepository.GetById | src/RazordAdmin/Repositories/FeatureRepository.cs:22-28 | the row with exactly this id, or none; the table is unchanged |
| Repositories.FeatureRepository.GetByName | src/RazordAdmin/Repositories/FeatureRepository.cs:30-36 | the row with exactly this name, or none; the table is unchanged |
| Repositories.FeatureRepository.Create | src/RazordAdmin/Repositories/FeatureRepository.cs:38-47 | exactly one row with the given fields is added under a new id held by no earlier row; a taken name is refused and nothing changes |
| Repositories.FeatureRepository.Update | src/RazordAdmin/Repositories/FeatureRepository.cs:49-61 | Description through LastUsed are overwritten on the row with the id, never Id or Name; other rows are unchanged; true if and only if the row existed |
| Repositories.FeatureRepository.Delete | src/RazordAdmin/Repositories/FeatureRepository.cs:63-68 | only the row with the id is removed; true if and only if it existed |
| Repositories.FeatureRepository.Exists | src/RazordAdmin/Repositories/FeatureRepository.cs:70-83 | true if and only if a row other than the excluded id has the name; the table is unchanged |
| FeatureServices.FeatureService.constructor | src/RazordAdmin/Services/FeatureService.cs:15-19 | a service over the repository |
| FeatureServices.FeatureService.GetAllFeatures | src/RazordAdmin/Services/FeatureService.cs:21-32 | the repository's listing, failures rethrown; one call, no change |
| FeatureServices.FeatureService.GetFeatureById | src/RazordAdmin/Services/FeatureService.cs:34-45 | the repository's lookup by id, failures rethrown |
| FeatureServices.FeatureService.GetFeatureByName | src/RazordAdmin/Services/FeatureService.cs:47-58 | the repository's lookup by name, failures rethrown |
| FeatureServices.FeatureService.CreateFeature | src/RazordAdmin/Services/FeatureService.cs:60-98 | an invalid request throws the validation error listing every message, with no repository call; a taken name throws "already exists" after the existence check alone, and Create is never called; otherwise the row is inserted and the re-fetched row with the new id is returned (the "failed to retrieve" branch is unreachable) |
| FeatureServices.FeatureService.UpdateFeature | src/RazordAdmin/Services/FeatureService.cs:100-133 | a missing id throws "not found" after one lookup, and Update is never called; otherwise the fetched row is patched by `UpdateFromRequest`, persisted and re-fetched: GetById is called exactly twice, and the result is the patched row |
| FeatureServices.FeatureService.DeleteFeature | src/RazordAdmin/Services/FeatureService.cs:135-158 | a missing id gives false without a Delete call; otherwise the result of Delete, which removes just that row |
| FeatureServices.FeatureService.FeatureExists | src/RazordAdmin/Services/FeatureService.cs:160-171 | exactly the repository's `ExistsAsync(name, excludeId)` |
| DatabaseServices.DatabaseSeedNamesDistinct | src/RazordAdmin/Services/DatabaseService.cs:105-198 | seven seeds with pairwise distinct names |
| DatabaseServices.DatabaseSeedsInPast | src/RazordAdmin/Services/DatabaseService.cs:105-198 | every seed date lies before the moment of seeding |
| DatabaseServices.DatabaseService.constructor | src/RazordAdmin/Services/DatabaseService.cs:21-24 | a service on the database, with no call made yet |
| DatabaseServices.DatabaseService.GetAllFeatures | src/RazordAdmin/Services/DatabaseService.cs:26-30 | every row once, in name order; no change |
| DatabaseServices.DatabaseService.GetFeatureByName | src/RazordAdmin/Services/DatabaseService.cs:32-38 | the exact-name match, or none; no change |
| DatabaseServices.DatabaseService.GetFeatureById | src/RazordAdmin/Repositories/FeatureRepository.cs:22-28 | the row with the id, or none; no change |
| DatabaseServices.DatabaseService.CreateFeature | src/RazordAdmin/Services/DatabaseService.cs:40-49 | one row is inserted, and its fresh id is returned |
| DatabaseServices.DatabaseService.UpdateFeature | src/RazordAdmin/Services/DatabaseService.cs:51-63 | never changes Name or Id; true if and only if a row with the id existed |
| DatabaseServices.DatabaseService.DeleteFeature | src/RazordAdmin/Services/DatabaseService.cs:65-70 | true if and only if a row was removed; only that row goes |
| DatabaseServices.DatabaseService.FeatureExists | src/RazordAdmin/Repositories/FeatureRepository.cs:70-83 | whether a row other than the excluded id has the name; no change |
| DatabaseServices.DatabaseService.InitializeDatabase | src/RazordAdmin/Services/DatabaseService.cs:72-101 | a failure to open the connection propagates with the table untouched; otherwise the table exists afterwards, an empty table receives the seven seeds and the sequence advances by seven, and a non-empty table is left untouched |
| DatabaseServices.DatabaseService.SeedFeatures | src/RazordAdmin/Services/DatabaseService.cs:103-208 | the seven seeds are appended in array order under consecutive fresh ids |
| DatabaseInitialization.InitializationSeedNamesDistinct | src/RazordAdmin/Services/DatabaseInitializationService.cs:68-148 | six seeds with pairwise distinct names |
| DatabaseInitialization.InitializationSeedsInPast | src/RazordAdmin/Services/DatabaseInitializationService.cs:68-148 | every seed date lies before the moment of seeding |
| DatabaseInitialization.DatabaseInitializationService.constructor | src/RazordAdmin/Services/DatabaseInitializationService.cs:16-20 | a service on the database |
| DatabaseInitialization.DatabaseInitializationService.InitializeDatabase | src/RazordAdmin/Services/DatabaseInitializationService.cs:22-64 | a failure to open the connection is rethrown with the table untouched; otherwise the table exists, an empty table receives the six seeds and the sequence advances by six, and a non-empty table gets no row |
| DatabaseInitialization.DatabaseInitializationService.SeedFeatures | src/RazordAdmin/Services/DatabaseInitializationService.cs:66-158 | the six seeds are appended in array order under consecutive fresh ids |
| ApiControllers.StatusCode | src/RazordAdmin/Controllers/FeaturesApiController.cs:84-87 | Ok is 200, CreatedAtAction 201, BadRequest 400, NotFound 404 and Problem 500, each in both directions |
| ApiControllers.ToResponses | src/RazordAdmin/Controllers/FeaturesApiController.cs:36 | one response per feature, in order |
| ApiControllers.ToResponsesInjective | src/RazordAdmin/Controllers/FeaturesApiController.cs:33-43 | the listing sent loses no row and no field |
| ApiControllers.FeaturesApiController.constructor | src/RazordAdmin/Controllers/FeaturesApiController.cs:19-22 | a controller over the database service |
| ApiControllers.FeaturesApiController.GetAll | src/RazordAdmin/Controllers/FeaturesApiController.cs:33-43 | 200 with every feature's response in name order |
| ApiControllers.FeaturesApiController.GetById | src/RazordAdmin/Controllers/FeaturesApiController.cs:57-74 | 404 with success false and "Feature not found" for an absent id; 200 with the row's response otherwise |
| ApiControllers.FeaturesApiController.Create | src/RazordAdmin/Controllers/FeaturesApiController.cs:88-121 | 400 "Validation failed" with every message, and no store call; 400 "Feature name already exists" after the existence check alone, and no insert; otherwise 201 to GetById with the id the insert returned and the created row |
| ApiControllers.FeaturesApiController.Update | src/RazordAdmin/Controllers/FeaturesApiController.cs:136-160 | 404 without a write for an absent id; otherwise the patched row is written, and 200 carries the re-fetched row (the problem response is unreachable) |
| ApiControllers.FeaturesApiController.Delete | src/RazordAdmin/Controllers/FeaturesApiController.cs:174-195 | 404 without a delete for an absent id; otherwise the row is removed and 200 says "Feature deleted successfully" (the problem response is unreachable) |
| Middleware.StatusCodeFor | src/RazordAdmin/Middleware/GlobalExceptionHandler.cs:58-72 | validation and invalid-operation errors give 400, an unauthorised access 401, anything else 500, each in both directions |
| Middleware.ErrorEnvelope | src/RazordAdmin/Middleware/GlobalExceptionHandler.cs:42-56 | never a success and no data; in development the exception's message and one error entry; elsewhere the generic message and no error list |
| Middleware.ProductionEnvelopeHidesException | src/RazordAdmin/Middleware/GlobalExceptionHandler.cs:45-50 | outside development any two exceptions give the same body |
| Middleware.DevelopmentEnvelopeCarriesTrace | src/RazordAdmin/Middleware/GlobalExceptionHandler.cs:50-56 | in development the error entry is the stack trace, or "No stack trace available" |
| Middleware.MissingTableIsServerError | src/RazordAdmin/Middleware/GlobalExceptionHandler.cs:69-71 | a SQLite error such as the missing table ends in 500 |
| Middleware.GlobalExceptionHandler.constructor | src/RazordAdmin/Middleware/GlobalExceptionHandler.cs:17-22 | a handler for the given environment |
| Middleware.GlobalExceptionHandler.Invoke | src/RazordAdmin/Middleware/GlobalExceptionHandler.cs:24-34 | when the rest of the pipeline does not throw, the response is untouched; otherwise the exception is handled |
| Middleware.GlobalExceptionHandler.HandleException | src/RazordAdmin/Middleware/GlobalExceptionHandler.cs:36-80 | the content type is application/json, the status is `StatusCodeFor` the exception's kind, and the body is its envelope |
| FeaturesMvc.Lookup | src/RazordAdmin/Controllers/FeaturesController.cs:58-67 | nothing is found exactly when no arm has the key; what is found is the data of an arm with that key |
| FeaturesMvc.LookupFindsEntry | src/RazordAdmin/Controllers/FeaturesController.cs:58-66 | with distinct keys, each arm is reached by its own key |
| FeaturesMvc.CatalogKeysDistinct | src/RazordAdmin/Controllers/FeaturesController.cs:59-66 | the seven keys are distinct |
| FeaturesMvc.GetFeatureData | src/RazordAdmin/Controllers/FeaturesController.cs:56-68 | the data of the arm keyed by the lower-cased name, or the "Unknown feature" default when there is none |
| FeaturesMvc.GetFeatureDataIgnoresCase | src/RazordAdmin/Controllers/FeaturesController.cs:58 | a name and its lower-cased form get the same data |
| FeaturesMvc.GetFeatureDataFindsKnown | src/RazordAdmin/Controllers/FeaturesController.cs:59-66 | any name that lower-cases to a known key gets exactly that arm's data |
| FeaturesMvc.SeedNameFindsCatalogEntry | src/RazordAdmin/Controllers/FeaturesController.cs:60 | "AdBlock" and "ADBLOCK" both reach the first arm |
| FeaturesMvc.GetStatusColor | src/RazordAdmin/Controllers/FeaturesController.cs:71-80 | Active is green, Pending yellow, Disabled red, anything else gray, case-sensitively and in both directions |
| FeaturesMvc.UnknownFeatureIsRed | src/RazordAdmin/Controllers/FeaturesController.cs:67 | an unknown name is always shown in red |
| FeaturesMvc.Detail | src/RazordAdmin/Controllers/FeaturesController.cs:22-43 | the name as given, the looked-up data, and the colour of the looked-up status |
| FeaturesMvc.DetailPost | src/RazordAdmin/Controllers/FeaturesController.cs:45-54 | a redirect to Detail with the same feature name, whatever the posted model |
| FeatureDetailPages.FeatureDetailModel.constructor | src/RazordAdmin/Pages/Features/FeatureDetail.cshtml.cs:10-22 | every property starts empty or zero |
| FeatureDetailPages.FeatureDetailModel.OnGet | src/RazordAdmin/Pages/Features/FeatureDetail.cshtml.cs:29-44 | the bound name is not modified, and the page shows exactly what the MVC `Detail` shows for it: every looked-up field and the colour of its status |
| FeatureDetailPages.FeatureDetailModel.Display | src/RazordAdmin/Pages/Features/FeatureDetail.cshtml.cs:34-43 | the property assignments copy each given field and the colour, and leave the name alone |
| FeatureDetailPages.FeatureDetailModel.OnPost | src/RazordAdmin/Pages/Features/FeatureDetail.cshtml.cs:46-53 | a redirect to the page with the same feature name |

## Left out

- SQLite and Dapper mechanics are not modelled: connections, SQL text, column mapping, and dates stored as text. Each statement is modelled by its effect on the rows.
- Logging, JSON serialisation with camel-case names, Swagger attributes and the `Health` endpoint are not modelled. They carry no decision logic.
- ASP.NET's automatic model validation under `[ApiController]` is framework behaviour and is not modelled. The controller's own validation is.
- Concurrency is not modelled: the race between the existence check and the insert, and the race between fetch and update or delete. As a consequence these paths are proved unreachable rather than modelled as outcomes:
  - the service's "Failed to update" and "Failed to retrieve …" exceptions;
  - the controller's problem responses;
  - a null re-fetch.
- The clock is one abstract `now` per operation. `DateTime.Now` and `DateTime.UtcNow` are not told apart, and successive reads of the clock within one operation are taken to be equal. Seed dates are offsets back from `now`.
- Integers are unbounded. The 32-bit `int` of ids and counters, and overflow of the AUTOINCREMENT sequence, are not modelled.
- Text.ToLower: lower-cases ASCII letters only; the culture-sensitive mapping of other letters is not modelled.
- Exception classes are flattened to five kinds, so the handler's match on subclasses (for instance an `ObjectDisposedException` counting as an invalid operation) is not modelled. A stack trace is an optional string.
- DatabaseInitialization.DatabaseInitializationService.InitializeDatabase: opening the connection is the only failure it models, given as the `openError` parameter; failures of later statements cannot occur once the table exists.
- DatabaseServices.DatabaseService.InitializeDatabase: the same; it has no catch, so the open failure propagates just as the other initialiser's rethrow does.
- The next delegate of the exception handler is modelled only by the exception it throws, if any; its own writes to the response are not modelled.
- `GetFeatureByIdAsync` and `FeatureExistsAsync` are called on the database service but not declared by it. They are given the repository's semantics.
- The page model's private copies of `GetFeatureData` and `GetStatusColor` are identical to the MVC controller's, so they are modelled once, in `FeaturesMvc`.
- A null feature name is not modelled: it makes the lookup throw.
- The seeding loop of both services is the shared `Sqlite.SqliteDatabase.InsertEach`.
- The composition in `Program.cs` is not modelled. Program.cs registers only `DatabaseService` (line 9) and calls its `InitializeDatabaseAsync` at start-up (lines 32-36). It does not register `FeatureService`, `FeatureRepository` or `DatabaseInitializationService`, and it does not install `GlobalExceptionHandler`. Each class is modelled on its own, as it would behave if it were wired in.
- The Markdown service, the settings, the view-model classes, the empty page models and the controller tests written against another constructor are not part of this model.

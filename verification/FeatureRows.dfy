/** The Features table as a sequence of rows in rowid order, and the meaning
    of each SQL statement the code issues against it: the BINARY collation of
    `ORDER BY Name`, lookups by `Id` and by `Name`, `COUNT(*)` with the name
    filter, and the row sets `UPDATE` and `DELETE` leave behind. */
module FeatureRows {
  import opened Wrappers
  import opened Models

  // ---------------------------------------------------------------------
  // The table's integrity: AUTOINCREMENT ids and the UNIQUE name column
  // ---------------------------------------------------------------------

  /** Rows are stored in rowid order, and AUTOINCREMENT hands out increasing ids. */
  predicate IdsAscending(rows: seq<Feature>)
  {
    forall i, j :: 0 <= i < j < |rows| ==> rows[i].id < rows[j].id
  }

  /** Every id was handed out already: it is positive and at most the table's sequence value. */
  predicate IdsIssued(rows: seq<Feature>, lastId: int)
  {
    forall i :: 0 <= i < |rows| ==> 0 < rows[i].id <= lastId
  }

  /** `Name TEXT NOT NULL UNIQUE`. */
  predicate NamesUnique(rows: seq<Feature>)
  {
    forall i, j :: 0 <= i < j < |rows| ==> rows[i].name != rows[j].name
  }

  predicate WellFormed(rows: seq<Feature>, lastId: int)
  {
    IdsAscending(rows) && IdsIssued(rows, lastId) && NamesUnique(rows)
  }

  predicate HasName(rows: seq<Feature>, name: string)
  {
    exists i :: 0 <= i < |rows| && rows[i].name == name
  }

  predicate HasId(rows: seq<Feature>, id: int)
  {
    exists i :: 0 <= i < |rows| && rows[i].id == id
  }

  // ---------------------------------------------------------------------
  // ORDER BY Name (BINARY collation: code point by code point, a proper
  // prefix first)
  // ---------------------------------------------------------------------

  predicate NameLe(a: string, b: string)
    decreases |a|
  {
    |a| == 0 || (|b| > 0 && (a[0] < b[0] || (a[0] == b[0] && NameLe(a[1..], b[1..]))))
  }

  lemma {:induction false} NameLeTotal(a: string, b: string)
    ensures NameLe(a, b) || NameLe(b, a)
    decreases |a|
  {
    if |a| > 0 && |b| > 0 && a[0] == b[0] {
      NameLeTotal(a[1..], b[1..]);
    }
  }

  lemma {:induction false} NameLeTransitive(a: string, b: string, c: string)
    requires NameLe(a, b) && NameLe(b, c)
    ensures NameLe(a, c)
    decreases |a|
  {
    if |a| > 0 && a[0] == b[0] && b[0] == c[0] {
      NameLeTransitive(a[1..], b[1..], c[1..]);
    }
  }

  lemma {:induction false} NameLeAntisymmetric(a: string, b: string)
    requires NameLe(a, b) && NameLe(b, a)
    ensures a == b
    decreases |a|
  {
    if |a| > 0 {
      NameLeAntisymmetric(a[1..], b[1..]);
      assert a == [a[0]] + a[1..] && b == [b[0]] + b[1..];
    }
  }

  predicate SortedByName(s: seq<Feature>)
  {
    forall i, j :: 0 <= i < j < |s| ==> NameLe(s[i].name, s[j].name)
  }

  /** A result of `SELECT * FROM Features ORDER BY Name`: every row once, by name. */
  predicate IsListing(s: seq<Feature>, rows: seq<Feature>)
  {
    SortedByName(s) && multiset(s) == multiset(rows)
  }

  function InsertByName(f: Feature, s: seq<Feature>): (r: seq<Feature>)
    ensures multiset(r) == multiset(s) + multiset{f}
    decreases |s|
  {
    if s == [] || NameLe(f.name, s[0].name) then [f] + s
    else
      assert s == [s[0]] + s[1..];
      [s[0]] + InsertByName(f, s[1..])
  }

  /** The rows in name order (insertion sort). */
  function SortByName(s: seq<Feature>): (r: seq<Feature>)
    ensures multiset(r) == multiset(s)
    decreases |s|
  {
    if s == [] then []
    else
      assert s == [s[0]] + s[1..];
      InsertByName(s[0], SortByName(s[1..]))
  }

  lemma ElementOfPermutation(s: seq<Feature>, t: seq<Feature>, k: nat) returns (m: nat)
    requires multiset(s) == multiset(t) && k < |s|
    ensures m < |t| && t[m] == s[k]
  {
    assert s[k] in multiset(t);
    m :| m < |t| && t[m] == s[k];
  }

  lemma {:induction false} InsertByNameSorted(f: Feature, s: seq<Feature>)
    requires SortedByName(s)
    ensures SortedByName(InsertByName(f, s))
    decreases |s|
  {
    if s == [] {
    } else if NameLe(f.name, s[0].name) {
      var r := [f] + s;
      forall i, j | 0 <= i < j < |r| ensures NameLe(r[i].name, r[j].name) {
        if i == 0 && j > 1 {
          NameLeTransitive(f.name, s[0].name, s[j - 1].name);
        }
      }
    } else {
      NameLeTotal(f.name, s[0].name);
      InsertByNameSorted(f, s[1..]);
      var rest := InsertByName(f, s[1..]);
      forall k | 0 <= k < |rest| ensures NameLe(s[0].name, rest[k].name) {
        assert rest[k] in multiset(s[1..]) + multiset{f} by {
          assert rest[k] in multiset(rest);
        }
        if rest[k] != f {
          assert rest[k] in s[1..];
        }
      }
      var r := [s[0]] + rest;
      assert r == InsertByName(f, s);
      forall i, j | 0 <= i < j < |r| ensures NameLe(r[i].name, r[j].name) {
        if i > 0 {
          assert r[i] == rest[i - 1] && r[j] == rest[j - 1];
        } else {
          assert r[j] == rest[j - 1];
        }
      }
    }
  }

  lemma {:induction false} SortByNameSorted(s: seq<Feature>)
    ensures SortedByName(SortByName(s))
    decreases |s|
  {
    if s != [] {
      SortByNameSorted(s[1..]);
      InsertByNameSorted(s[0], SortByName(s[1..]));
    }
  }

  /** Rows with equal names are the same row. */
  predicate NamesDetermineRows(s: seq<Feature>)
  {
    forall i, j :: 0 <= i < |s| && 0 <= j < |s| && s[i].name == s[j].name ==> s[i] == s[j]
  }

  lemma MultisetOfTail(s: seq<Feature>)
    requires |s| > 0
    ensures multiset(s[1..]) == multiset(s) - multiset{s[0]}
  {
    assert s == [s[0]] + s[1..];
  }

  /** Two name-ordered sequences of the same rows start with the same row. */
  lemma {:induction false} ListingsAgreeOnHead(x: seq<Feature>, y: seq<Feature>)
    requires SortedByName(x) && SortedByName(y) && multiset(x) == multiset(y)
    requires NamesDetermineRows(x) && |x| > 0
    ensures |y| > 0 && x[0] == y[0]
  {
    var j := ElementOfPermutation(x, y, 0);
    var k := ElementOfPermutation(y, x, 0);
    if j > 0 && k > 0 {
      assert NameLe(x[0].name, x[k].name) && NameLe(y[0].name, y[j].name);
      NameLeAntisymmetric(x[0].name, x[k].name);
    }
  }

  /** Two name-ordered sequences of the same rows are equal when names identify rows. */
  lemma {:induction false} ListingIsUnique(x: seq<Feature>, y: seq<Feature>)
    requires SortedByName(x) && SortedByName(y) && multiset(x) == multiset(y)
    requires NamesDetermineRows(x)
    ensures x == y
    decreases |x|
  {
    if |x| == 0 {
      assert |y| == |multiset(y)| == 0;
    } else {
      ListingsAgreeOnHead(x, y);
      MultisetOfTail(x);
      MultisetOfTail(y);
      var x', y' := x[1..], y[1..];
      assert SortedByName(x') && SortedByName(y') && NamesDetermineRows(x') by {
        assert forall i :: 0 <= i < |x'| ==> x'[i] == x[i + 1];
        assert forall i :: 0 <= i < |y'| ==> y'[i] == y[i + 1];
      }
      ListingIsUnique(x', y');
      assert x == [x[0]] + x' && y == [y[0]] + y';
    }
  }

  lemma NamesUniqueDetermineRows(x: seq<Feature>, rows: seq<Feature>)
    requires multiset(x) == multiset(rows) && NamesUnique(rows)
    ensures NamesDetermineRows(x)
  {
    forall i, j | 0 <= i < |x| && 0 <= j < |x| && x[i].name == x[j].name ensures x[i] == x[j] {
      var p := ElementOfPermutation(x, rows, i);
      var q := ElementOfPermutation(x, rows, j);
      assert rows[p] == x[i] && rows[q] == x[j];
    }
  }

  /** A listing of a table is fully determined by its rows: it is `SortByName(rows)`. */
  lemma ListingIsSortByName(x: seq<Feature>, rows: seq<Feature>)
    requires NamesUnique(rows) && IsListing(x, rows)
    ensures x == SortByName(rows)
  {
    SortByNameSorted(rows);
    NamesUniqueDetermineRows(x, rows);
    ListingIsUnique(x, SortByName(rows));
  }

  /** The listing does not depend on the order in which rows were inserted. */
  lemma ListingIgnoresInsertionOrder(a: seq<Feature>, b: seq<Feature>)
    requires NamesUnique(a) && multiset(a) == multiset(b)
    ensures SortByName(a) == SortByName(b)
  {
    SortByNameSorted(b);
    ListingIsSortByName(SortByName(b), a);
  }

  // ---------------------------------------------------------------------
  // WHERE Id = @Id, WHERE Name = @Name, COUNT(*)
  // ---------------------------------------------------------------------

  /** `SELECT * FROM Features WHERE Id = @Id`, first row or null. */
  function FindById(rows: seq<Feature>, id: int): (r: Option<Feature>)
    ensures r.Some? ==> r.value in rows && r.value.id == id
    ensures r.None? <==> !HasId(rows, id)
    decreases |rows|
  {
    if rows == [] then None
    else if rows[0].id == id then Some(rows[0])
    else
      var r := FindById(rows[1..], id);
      assert HasId(rows[1..], id) ==> HasId(rows, id);
      r
  }

  /** `SELECT * FROM Features WHERE Name = @Name`, first row or null. */
  function FindByName(rows: seq<Feature>, name: string): (r: Option<Feature>)
    ensures r.Some? ==> r.value in rows && r.value.name == name
    ensures r.None? <==> !HasName(rows, name)
    decreases |rows|
  {
    if rows == [] then None
    else if rows[0].name == name then Some(rows[0])
    else
      var r := FindByName(rows[1..], name);
      assert HasName(rows[1..], name) ==> HasName(rows, name);
      r
  }

  /** With unique ids, the lookup by id finds the one row that carries it. */
  lemma {:induction false} FindByIdFindsRow(rows: seq<Feature>, i: nat)
    requires IdsAscending(rows) && i < |rows|
    ensures FindById(rows, rows[i].id) == Some(rows[i])
    decreases |rows|
  {
    if i > 0 {
      assert rows[0].id < rows[i].id;
      assert rows[1..][i - 1] == rows[i];
      FindByIdFindsRow(rows[1..], i - 1);
    }
  }

  /** With unique names, the lookup by name finds the one row that carries it. */
  lemma {:induction false} FindByNameFindsRow(rows: seq<Feature>, i: nat)
    requires NamesUnique(rows) && i < |rows|
    ensures FindByName(rows, rows[i].name) == Some(rows[i])
    decreases |rows|
  {
    if i > 0 {
      assert rows[0].name != rows[i].name;
      assert rows[1..][i - 1] == rows[i];
      FindByNameFindsRow(rows[1..], i - 1);
    }
  }

  /** Without an excluded id, the existence query holds exactly when the name is taken. */
  lemma NameTakenWithoutExclusion(rows: seq<Feature>, name: string)
    ensures NameTaken(rows, name, None) <==> HasName(rows, name)
  {
  }

  /** The filter of the existence query: `Name = @Name [AND Id != @ExcludeId]`. */
  predicate Matches(f: Feature, name: string, excludeId: Option<int>)
  {
    f.name == name && (excludeId.None? || f.id != excludeId.value)
  }

  /** Some row other than the excluded one carries the name. */
  predicate NameTaken(rows: seq<Feature>, name: string, excludeId: Option<int>)
  {
    exists i :: 0 <= i < |rows| && Matches(rows[i], name, excludeId)
  }

  /** `SELECT COUNT(*) FROM Features WHERE Name = @Name [AND Id != @ExcludeId]`. */
  function CountMatching(rows: seq<Feature>, name: string, excludeId: Option<int>): (n: nat)
    ensures n > 0 <==> NameTaken(rows, name, excludeId)
    ensures n <= |rows|
    decreases |rows|
  {
    if rows == [] then 0
    else
      var n := CountMatching(rows[1..], name, excludeId);
      assert NameTaken(rows[1..], name, excludeId) ==> NameTaken(rows, name, excludeId);
      (if Matches(rows[0], name, excludeId) then 1 else 0) + n
  }

  /** With unique names at most one row matches. */
  lemma {:induction false} CountMatchingAtMostOne(rows: seq<Feature>, name: string, excludeId: Option<int>)
    requires NamesUnique(rows)
    ensures CountMatching(rows, name, excludeId) <= 1
    decreases |rows|
  {
    if rows != [] {
      CountMatchingAtMostOne(rows[1..], name, excludeId);
      if Matches(rows[0], name, excludeId) {
        forall i | 0 <= i < |rows[1..]| ensures !Matches(rows[1..][i], name, excludeId) {
          assert rows[1..][i] == rows[i + 1];
        }
      }
    }
  }

  /** The number of rows `WHERE Id = @Id` touches. */
  function CountId(rows: seq<Feature>, id: int): (n: nat)
    ensures n > 0 <==> HasId(rows, id)
    ensures n <= |rows|
    decreases |rows|
  {
    if rows == [] then 0
    else
      var n := CountId(rows[1..], id);
      assert HasId(rows[1..], id) ==> HasId(rows, id);
      (if rows[0].id == id then 1 else 0) + n
  }

  /** With ascending ids at most one row carries a given id. */
  lemma {:induction false} CountIdAtMostOne(rows: seq<Feature>, id: int)
    requires IdsAscending(rows)
    ensures CountId(rows, id) <= 1
    decreases |rows|
  {
    if rows != [] {
      CountIdAtMostOne(rows[1..], id);
      if rows[0].id == id {
        forall i | 0 <= i < |rows[1..]| ensures rows[1..][i].id != id {
          assert rows[1..][i] == rows[i + 1];
        }
      }
    }
  }

  // ---------------------------------------------------------------------
  // UPDATE ... WHERE Id = @Id and DELETE ... WHERE Id = @Id
  // ---------------------------------------------------------------------

  /** The columns the UPDATE statement sets: everything but `Id` and `Name`. */
  function SetColumns(row: Feature, f: Feature): (r: Feature)
    ensures r == f.(id := row.id, name := row.name)
  {
    row.(description := f.description, status := f.status, category := f.category,
         icon := f.icon, lastUpdated := f.lastUpdated, usageCount := f.usageCount,
         successRate := f.successRate, errorCount := f.errorCount, lastUsed := f.lastUsed)
  }

  /** The table after `UPDATE Features SET Description = ..., LastUsed = ... WHERE Id = @Id`. */
  function UpdateRows(rows: seq<Feature>, f: Feature): (r: seq<Feature>)
    ensures |r| == |rows|
    ensures forall i :: 0 <= i < |rows| ==> r[i].id == rows[i].id && r[i].name == rows[i].name
    ensures forall i :: 0 <= i < |rows| && rows[i].id == f.id ==> r[i] == f.(name := rows[i].name)
    ensures forall i :: 0 <= i < |rows| && rows[i].id != f.id ==> r[i] == rows[i]
  {
    seq(|rows|, i requires 0 <= i < |rows| => if rows[i].id == f.id then SetColumns(rows[i], f) else rows[i])
  }

  /** The UPDATE keeps the table well formed: it never writes `Id` or `Name`. */
  lemma UpdateRowsWellFormed(rows: seq<Feature>, lastId: int, f: Feature)
    requires WellFormed(rows, lastId)
    ensures WellFormed(UpdateRows(rows, f), lastId)
  {
  }

  /** The table after `DELETE FROM Features WHERE Id = @Id`. */
  function DeleteRows(rows: seq<Feature>, id: int): (r: seq<Feature>)
    ensures |r| + CountId(rows, id) == |rows|
    ensures forall k :: 0 <= k < |r| ==> r[k].id != id
    decreases |rows|
  {
    if rows == [] then []
    else (if rows[0].id == id then [] else [rows[0]]) + DeleteRows(rows[1..], id)
  }

  /** DELETE keeps exactly the rows with another id. */
  lemma {:induction false} DeleteRowsMembers(rows: seq<Feature>, id: int)
    ensures forall g :: g in DeleteRows(rows, id) <==> g in rows && g.id != id
    decreases |rows|
  {
    if rows != [] {
      DeleteRowsMembers(rows[1..], id);
      assert rows == [rows[0]] + rows[1..];
    }
  }

  /** A row placed in front of a well-formed table, with a smaller id and a new name. */
  lemma PrependWellFormed(f: Feature, rest: seq<Feature>, lastId: int)
    requires WellFormed(rest, lastId) && 0 < f.id <= lastId
    requires forall k :: 0 <= k < |rest| ==> f.id < rest[k].id && f.name != rest[k].name
    ensures WellFormed([f] + rest, lastId)
  {
    var r := [f] + rest;
    forall i, j | 0 <= i < j < |r| ensures r[i].id < r[j].id && r[i].name != r[j].name {
      assert r[j] == rest[j - 1];
      if i > 0 {
        assert r[i] == rest[i - 1];
      }
    }
  }

  /** What holds of every row, a greater id and another name, still holds after DELETE. */
  lemma {:induction false} DeleteRowsKeepsBounds(rows: seq<Feature>, id: int, below: Feature)
    requires forall k :: 0 <= k < |rows| ==> below.id < rows[k].id && below.name != rows[k].name
    ensures forall k :: 0 <= k < |DeleteRows(rows, id)| ==>
      below.id < DeleteRows(rows, id)[k].id && below.name != DeleteRows(rows, id)[k].name
    decreases |rows|
  {
    if rows != [] {
      DeleteRowsKeepsBounds(rows[1..], id, below);
    }
  }

  /** The DELETE keeps the table well formed. */
  lemma {:induction false} DeleteRowsWellFormed(rows: seq<Feature>, lastId: int, id: int)
    requires WellFormed(rows, lastId)
    ensures WellFormed(DeleteRows(rows, id), lastId)
    decreases |rows|
  {
    if rows != [] {
      var tail := rows[1..];
      assert WellFormed(tail, lastId);
      DeleteRowsWellFormed(tail, lastId, id);
      if rows[0].id != id {
        forall k | 0 <= k < |tail| ensures rows[0].id < tail[k].id && rows[0].name != tail[k].name {
          assert tail[k] == rows[k + 1];
        }
        DeleteRowsKeepsBounds(tail, id, rows[0]);
        PrependWellFormed(rows[0], DeleteRows(tail, id), lastId);
      }
    }
  }

  /** Deleting an id that is not at the front keeps the front row. */
  lemma DeleteRowsKeepsHead(rows: seq<Feature>, id: int)
    requires rows != [] && rows[0].id != id
    ensures DeleteRows(rows, id) == [rows[0]] + DeleteRows(rows[1..], id)
  {
  }

  /** DELETE removes exactly the row with that id and keeps the others in order. */
  lemma {:induction false} DeleteRowsAt(rows: seq<Feature>, id: int, i: nat)
    requires IdsAscending(rows) && i < |rows| && rows[i].id == id
    ensures DeleteRows(rows, id) == rows[..i] + rows[i + 1..]
    decreases |rows|
  {
    var tail := rows[1..];
    if i == 0 {
      forall k | 0 <= k < |tail| ensures tail[k].id != id {
        assert tail[k] == rows[k + 1];
      }
      DeleteRowsNoMatch(tail, id);
    } else {
      assert tail[i - 1] == rows[i];
      assert IdsAscending(tail);
      DeleteRowsAt(tail, id, i - 1);
      DeleteRowsKeepsHead(rows, id);
      assert rows[..i] == [rows[0]] + tail[..i - 1];
      assert rows[i + 1..] == tail[i..];
    }
  }

  lemma {:induction false} DeleteRowsNoMatch(rows: seq<Feature>, id: int)
    requires forall k :: 0 <= k < |rows| ==> rows[k].id != id
    ensures DeleteRows(rows, id) == rows
    decreases |rows|
  {
    if rows != [] {
      DeleteRowsNoMatch(rows[1..], id);
      assert rows == [rows[0]] + rows[1..];
    }
  }

  /** After the UPDATE of an existing row, the lookup by its id yields exactly the
      written values, provided they keep the row's name. */
  lemma FindByIdAfterUpdate(rows: seq<Feature>, f: Feature)
    requires IdsAscending(rows) && FindById(rows, f.id).Some? && FindById(rows, f.id).value.name == f.name
    ensures FindById(UpdateRows(rows, f), f.id) == Some(f)
  {
    var i :| 0 <= i < |rows| && rows[i].id == f.id;
    FindByIdFindsRow(rows, i);
    var r := UpdateRows(rows, f);
    assert IdsAscending(r);
    FindByIdFindsRow(r, i);
  }

  /** The rows inserted one after another from an empty sequence value `firstId - 1`. */
  function Numbered(fs: seq<Feature>, firstId: int): (r: seq<Feature>)
    ensures |r| == |fs|
    ensures forall i :: 0 <= i < |fs| ==> r[i] == fs[i].(id := firstId + i)
  {
    seq(|fs|, i requires 0 <= i < |fs| => fs[i].(id := firstId + i))
  }

  /** A feature as a seeding step writes it: its columns, with the two dates
      given as offsets back from the moment of seeding. */
  datatype Seed = Seed(
    name: string,
    description: string,
    status: string,
    category: string,
    icon: string,
    updatedAgo: int,
    usageCount: int,
    successRate: int,
    errorCount: int,
    usedAgo: Option<int>)

  /** Seeds that name distinct features. */
  predicate SeedNamesDistinct(seeds: seq<Seed>)
  {
    forall i, j :: 0 <= i < j < |seeds| ==> seeds[i].name != seeds[j].name
  }

  /** Seeds whose dates lie strictly before the moment of seeding. */
  predicate SeedsInPast(seeds: seq<Seed>)
  {
    && (forall i :: 0 <= i < |seeds| ==> seeds[i].updatedAgo > 0)
    && (forall i :: 0 <= i < |seeds| && seeds[i].usedAgo.Some? ==> seeds[i].usedAgo.value > 0)
  }

  /** The features the seeds stand for at time `now`, not yet numbered. */
  function Seeded(seeds: seq<Seed>, now: Timestamp): (r: seq<Feature>)
    ensures |r| == |seeds|
    ensures forall i :: 0 <= i < |seeds| ==> r[i].id == 0 && r[i].name == seeds[i].name
  {
    seq(|seeds|, i requires 0 <= i < |seeds| =>
      var s := seeds[i];
      Feature(0, s.name, s.description, s.status, s.category, s.icon, now - s.updatedAgo,
              s.usageCount, s.successRate, s.errorCount,
              if s.usedAgo.Some? then Some(now - s.usedAgo.value) else None))
  }

  /** Valid seeds give features with distinct names, all dated before `now`. */
  lemma SeededValid(seeds: seq<Seed>, now: Timestamp)
    requires SeedNamesDistinct(seeds) && SeedsInPast(seeds)
    ensures NamesUnique(Seeded(seeds, now))
    ensures forall i :: 0 <= i < |seeds| ==> Seeded(seeds, now)[i].lastUpdated < now
    ensures forall i :: 0 <= i < |seeds| && Seeded(seeds, now)[i].lastUsed.Some? ==> Seeded(seeds, now)[i].lastUsed.value < now
  {
  }

  /** The rows after the seed-if-empty start-up step: an empty table receives the
      seeds, with the next ids in order; a table with rows is left as it is. */
  function SeedIfEmpty(rows: seq<Feature>, lastId: int, seeds: seq<Feature>): (r: seq<Feature>)
    ensures rows != [] ==> r == rows
    ensures rows == [] ==> |r| == |seeds| && r == Numbered(seeds, lastId + 1)
  {
    if rows == [] then Numbered(seeds, lastId + 1) else rows
  }

  /** With at least one seed, running the step again (at any later time, with any
      seeds) changes nothing. */
  lemma SeedIfEmptyIdempotent(rows: seq<Feature>, lastId: int, seeds: seq<Feature>, lastId': int, seeds': seq<Feature>)
    requires |seeds| > 0
    ensures SeedIfEmpty(rows, lastId, seeds) != []
    ensures SeedIfEmpty(SeedIfEmpty(rows, lastId, seeds), lastId', seeds') == SeedIfEmpty(rows, lastId, seeds)
  {
  }
}

/** The MVC controller of the feature detail pages: a fixed catalogue of
    display data looked up by lower-cased feature name, the colour of a status,
    and the view model of the `Detail` page. */
module FeaturesMvc {
  import opened Wrappers
  import opened Text

  /** What a detail page shows about a feature. */
  datatype FeatureData = FeatureData(
    description: string,
    status: string,
    category: string,
    lastUpdated: string,
    icon: string,
    usageCount: int,
    successRate: int,
    errorCount: int,
    lastUsed: string)

  /** One arm of the lookup: a lower-case feature name and its data. */
  datatype CatalogEntry = CatalogEntry(key: string, data: FeatureData)

  /** The seven known features, keyed by lower-case name. */
  const Catalog: seq<CatalogEntry> := [
    CatalogEntry("adblock", FeatureData("Block unwanted advertisements and tracking scripts", "Active", "Security",
      "Jan 15, 2025", "mdi mdi-shield-check mdi-24px text-blue-500", 15420, 98, 12, "2 hours ago")),
    CatalogEntry("devtools", FeatureData("Developer tools and debugging utilities", "Active", "Development",
      "Jan 12, 2025", "mdi mdi-tools mdi-24px text-green-500", 8920, 95, 45, "1 hour ago")),
    CatalogEntry("database", FeatureData("Database administration and monitoring tools", "Active", "Data",
      "Jan 10, 2025", "mdi mdi-database mdi-24px text-purple-500", 5670, 99, 3, "30 minutes ago")),
    CatalogEntry("usermanagement", FeatureData("User accounts, roles, and permissions management", "Active", "Administration",
      "Jan 8, 2025", "mdi mdi-account-group mdi-24px text-orange-500", 12340, 97, 23, "15 minutes ago")),
    CatalogEntry("analytics", FeatureData("System analytics and reporting dashboard", "Pending", "Reporting",
      "Jan 5, 2025", "mdi mdi-chart-line mdi-24px text-red-500", 0, 0, 0, "Never")),
    CatalogEntry("backup", FeatureData("System backup and data recovery tools", "Active", "System",
      "Jan 3, 2025", "mdi mdi-backup-restore mdi-24px text-indigo-500", 2340, 100, 0, "1 day ago")),
    CatalogEntry("notifications", FeatureData("System notification and alert management", "Disabled", "Communication",
      "Dec 28, 2024", "mdi mdi-bell mdi-24px text-pink-500", 0, 0, 0, "Never")) ]

  /** The default arm, for any other name. */
  const UnknownFeature := FeatureData("Unknown feature", "Disabled", "Unknown", "Unknown",
    "mdi mdi-help-circle mdi-24px text-gray-500", 0, 0, 0, "Never")

  /** Whether some entry has the key. */
  predicate HasKey(entries: seq<CatalogEntry>, key: string)
  {
    exists i :: 0 <= i < |entries| && entries[i].key == key
  }

  /** The first arm whose key equals `key`, as a switch tries its arms in order. */
  function Lookup(entries: seq<CatalogEntry>, key: string): (r: Option<FeatureData>)
    ensures r.None? <==> !HasKey(entries, key)
    ensures r.Some? ==> CatalogEntry(key, r.value) in entries
    decreases |entries|
  {
    if entries == [] then None
    else if entries[0].key == key then Some(entries[0].data)
    else
      var r := Lookup(entries[1..], key);
      assert r.Some? ==> CatalogEntry(key, r.value) in entries[1..];
      assert HasKey(entries[1..], key) ==> HasKey(entries, key) by {
        if HasKey(entries[1..], key) {
          var i :| 0 <= i < |entries[1..]| && entries[1..][i].key == key;
          assert entries[i + 1].key == key;
        }
      }
      r
  }

  /** With distinct keys, every entry is found by its own key. */
  lemma {:induction false} LookupFindsEntry(entries: seq<CatalogEntry>, i: nat)
    requires i < |entries|
    requires forall j, k :: 0 <= j < k < |entries| ==> entries[j].key != entries[k].key
    ensures Lookup(entries, entries[i].key) == Some(entries[i].data)
    decreases |entries|
  {
    if i > 0 {
      assert entries[0].key != entries[i].key;
      assert entries[1..][i - 1] == entries[i];
      LookupFindsEntry(entries[1..], i - 1);
    }
  }

  /** The catalogue's keys are distinct and already lower-case. */
  lemma CatalogKeysDistinct()
    ensures |Catalog| == 7
    ensures forall j, k :: 0 <= j < k < |Catalog| ==> Catalog[j].key != Catalog[k].key
  {
  }

  /** `GetFeatureData`: the arm of the lower-cased name, or the default. */
  function GetFeatureData(featureName: string): (r: FeatureData)
    ensures HasKey(Catalog, ToLower(featureName)) ==> CatalogEntry(ToLower(featureName), r) in Catalog
    ensures !HasKey(Catalog, ToLower(featureName)) ==> r == UnknownFeature
  {
    match Lookup(Catalog, ToLower(featureName))
    case Some(data) => data
    case None => UnknownFeature
  }

  /** The lookup ignores case: names that lower-case alike get the same data. */
  lemma GetFeatureDataIgnoresCase(featureName: string)
    ensures GetFeatureData(ToLower(featureName)) == GetFeatureData(featureName)
  {
    ToLowerIdempotent(featureName);
  }

  /** Each known feature is found under its catalogue name, in any casing. */
  lemma GetFeatureDataFindsKnown(featureName: string, i: nat)
    requires i < |Catalog| && ToLower(featureName) == Catalog[i].key
    ensures GetFeatureData(featureName) == Catalog[i].data
  {
    CatalogKeysDistinct();
    LookupFindsEntry(Catalog, i);
  }

  /** The stored name "AdBlock" and its upper-case spelling both reach the first arm. */
  lemma SeedNameFindsCatalogEntry()
    ensures GetFeatureData("AdBlock") == GetFeatureData("ADBLOCK") == Catalog[0].data
  {
    assert ToLower("AdBlock") == "adblock";
    assert ToLower("ADBLOCK") == "adblock";
    GetFeatureDataFindsKnown("AdBlock", 0);
    GetFeatureDataFindsKnown("ADBLOCK", 0);
  }

  /** `GetStatusColor`: a case-sensitive switch on the status. */
  function GetStatusColor(status: string): (color: string)
    ensures color == "green" <==> status == "Active"
    ensures color == "yellow" <==> status == "Pending"
    ensures color == "red" <==> status == "Disabled"
    ensures color == "gray" <==> !(status in {"Active", "Pending", "Disabled"})
  {
    match status
    case "Active" => "green"
    case "Pending" => "yellow"
    case "Disabled" => "red"
    case _ => "gray"
  }

  /** A name outside the catalogue is shown as disabled, in red. */
  lemma UnknownFeatureIsRed(featureName: string)
    requires !HasKey(Catalog, ToLower(featureName))
    ensures GetStatusColor(GetFeatureData(featureName).status) == "red"
  {
  }

  /** The model of the `Detail` view. */
  datatype FeatureDetailViewModel = FeatureDetailViewModel(
    featureName: string,
    description: string,
    status: string,
    statusColor: string,
    category: string,
    lastUpdated: string,
    featureIcon: string,
    usageCount: int,
    successRate: int,
    errorCount: int,
    lastUsed: string)

  /** The feature data a view model displays. */
  function Shown(m: FeatureDetailViewModel): FeatureData
  {
    FeatureData(m.description, m.status, m.category, m.lastUpdated, m.featureIcon,
                m.usageCount, m.successRate, m.errorCount, m.lastUsed)
  }

  /** GET `Detail`: the name as given, the data of its lookup, and the colour of
      the looked-up status. */
  function Detail(featureName: string): (m: FeatureDetailViewModel)
    ensures m.featureName == featureName
    ensures Shown(m) == GetFeatureData(featureName)
    ensures m.statusColor == GetStatusColor(m.status)
  {
    var data := GetFeatureData(featureName);
    FeatureDetailViewModel(featureName, data.description, data.status, GetStatusColor(data.status),
      data.category, data.lastUpdated, data.icon, data.usageCount, data.successRate, data.errorCount,
      data.lastUsed)
  }

  /** The redirects the detail views answer a form post with. */
  datatype Redirect =
    | RedirectToAction(actionName: string, featureName: string)
    | RedirectToPage(featureName: string)

  /** POST `Detail`: nothing is stored; the browser is sent back to GET `Detail`
      for the same name, whatever the posted model holds. */
  function DetailPost(featureName: string, model: FeatureDetailViewModel): (r: Redirect)
    ensures r.RedirectToAction? && r.actionName == "Detail" && r.featureName == featureName
  {
    RedirectToAction("Detail", featureName)
  }
}

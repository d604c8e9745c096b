/** The Razor page of a feature's details: the route binds `FeatureName`, and
    a GET fills the other properties from the same catalogue the MVC
    controller uses. */
module FeatureDetailPages {
  import opened FeaturesMvc

  class FeatureDetailModel {
    /** Bound from the route and the query string, on GET as well as POST. */
    var featureName: string
    var description: string
    var status: string
    var statusColor: string
    var category: string
    var lastUpdated: string
    var featureIcon: string
    var usageCount: int
    var successRate: int
    var errorCount: int
    var lastUsed: string

    /** A page model before binding: every string empty, every count zero. */
    constructor ()
      ensures featureName == "" && View() == FeatureDetailViewModel("", "", "", "", "", "", "", 0, 0, 0, "")
    {
      featureName, description, status, statusColor := "", "", "", "";
      category, lastUpdated, featureIcon := "", "", "";
      usageCount, successRate, errorCount, lastUsed := 0, 0, 0, "";
    }

    /** What the page renders. */
    function View(): FeatureDetailViewModel
      reads this
    {
      FeatureDetailViewModel(featureName, description, status, statusColor, category, lastUpdated,
        featureIcon, usageCount, successRate, errorCount, lastUsed)
    }

    /** `OnGet`: copy each field of the lookup of the bound name, and the colour
        of its status; the bound name itself is left as it is. The page then
        shows exactly what the controller's `Detail` view shows for that name. */
    method OnGet()
      modifies this
      ensures featureName == old(featureName)
      ensures View() == Detail(featureName)
    {
      var featureData := GetFeatureData(featureName);
      Display(featureData, GetStatusColor(featureData.status));
    }

    /** The property assignments of `OnGet`, one per displayed field. */
    method Display(featureData: FeatureData, color: string)
      modifies this
      ensures featureName == old(featureName)
      ensures View() == FeatureDetailViewModel(featureName, featureData.description, featureData.status, color,
        featureData.category, featureData.lastUpdated, featureData.icon, featureData.usageCount,
        featureData.successRate, featureData.errorCount, featureData.lastUsed)
    {
      description := featureData.description;
      status := featureData.status;
      statusColor := color;
      category := featureData.category;
      lastUpdated := featureData.lastUpdated;
      featureIcon := featureData.icon;
      usageCount := featureData.usageCount;
      successRate := featureData.successRate;
      errorCount := featureData.errorCount;
      lastUsed := featureData.lastUsed;
    }

    /** `OnPost`: nothing is stored; the browser is sent back to this page for
        the same feature. */
    method OnPost() returns (r: Redirect)
      ensures r.RedirectToPage? && r.featureName == featureName
    {
      r := RedirectToPage(featureName);
    }
  }
}

/**
 * The routes the service worker registers with Workbox, as data in
 * registration order: which URLs each one takes, the Workbox strategy
 * named for it, its cache and its expiration limits.  How Workbox
 * dispatches a request among them is not part of this model.
 */
module Routes {
  import opened Options
  import opened UrlPatterns
  import CacheCleanup

  const YearInSeconds: nat := 60 * 60 * 24 * 365
  const WeekInSeconds: nat := 60 * 60 * 24 * 7

  /** The Workbox strategy classes the routes name. */
  datatype Strategy = NetworkFirst | CacheFirst | StaleWhileRevalidate

  /** The options of an `ExpirationPlugin`. */
  datatype Expiration = Expiration(maxEntries: nat, maxAgeSeconds: nat)

  /** The test each route applies to a URL string. */
  datatype Matcher =
    | NotDenylisted           // NavigationRoute with allowlist [/.*/] and the denylist
    | ApiGetRequest
    | UiImage
    | FontFile
    | GoogleFontsStylesheet

  datatype Route = Route(matcher: Matcher, strategy: Strategy, cacheName: string, expiration: Option<Expiration>)

  /** An entry of the precache manifest, a deployment input kept opaque here. */
  datatype ManifestEntry = ManifestEntry(url: string, revision: Option<string>)

  datatype Registration =
    | RegisterRoute(route: Route)
    | PrecacheAndRoute(manifest: seq<ManifestEntry>)

  /**
   * Whether the route's test accepts `url`, with each regular expression as
   * the source writes it; the image route takes the character class of its
   * bracket, so it takes `.json` or `.css` files under an image directory too.
   */
  function Matches(m: Matcher, url: string): (b: bool)
    ensures m == NotDenylisted ==> (b <==> !KeywordAfterPathOccurs(url) && !PhpEndingOccurs(url))
    ensures m == ApiGetRequest ==> (b <==> ApiGetTailOccurs(url))
    ensures m == UiImage ==> (b <==> AsWrittenImageOccurs(url))
    ensures m == FontFile ==> (b <==> FontLocationOccurs(url))
    ensures m == GoogleFontsStylesheet ==> (b <==> StartsWith(url, GoogleFontsStylesheetOrigin))
  {
    match m
    // The allowlist [/.*/] matches every string, so only the denylist decides.
    case NotDenylisted => DynamicPageSpec(url); PhpUrlSpec(url); !Denylisted(url)
    case ApiGetRequest => ApiGetSpec(url); IsApiGet(url)
    case UiImage => UiImageAsWrittenSpec(url); IsUiImageAsWritten(url)
    case FontFile => FontFileSpec(url); IsFontFile(url)
    case GoogleFontsStylesheet => IsGoogleFontsStylesheet(url)
  }

  const StaticPages: Route :=
    Route(NotDenylisted, NetworkFirst, "static-pages", Some(Expiration(5, YearInSeconds)))
  const ApiGetRequests: Route :=
    Route(ApiGetRequest, NetworkFirst, "api-get-requests", Some(Expiration(5, WeekInSeconds)))
  const UiImages: Route :=
    Route(UiImage, CacheFirst, "ui-images", Some(Expiration(100, YearInSeconds)))
  const FontFiles: Route :=
    Route(FontFile, CacheFirst, "font-files", Some(Expiration(100, YearInSeconds)))
  const GoogleFontsStylesheets: Route :=
    Route(GoogleFontsStylesheet, StaleWhileRevalidate, "google-fonts-stylesheets", None)

  /**
   * The registrations, in the order the script makes them: the navigation
   * route first, then the precache of the manifest, then the four runtime
   * routes.  Each route tests differently and has a cache of its own; the
   * long-lived assets (images, fonts) are served cache-first, and only the
   * stylesheet cache has no expiration.
   */
  function Registrations(manifest: seq<ManifestEntry>): (r: seq<Registration>)
    ensures |r| == 6 && r[0] == RegisterRoute(StaticPages) && r[1] == PrecacheAndRoute(manifest)
    ensures forall i :: 0 <= i < |r| ==> (r[i].PrecacheAndRoute? <==> i == 1)
    ensures forall i, j :: 0 <= i < j < |r| && r[i].RegisterRoute? && r[j].RegisterRoute? ==>
              r[i].route.matcher != r[j].route.matcher && r[i].route.cacheName != r[j].route.cacheName
    ensures forall i :: 0 <= i < |r| && r[i].RegisterRoute? ==>
              (r[i].route.strategy == CacheFirst <==> r[i].route.matcher in {UiImage, FontFile})
              && (r[i].route.expiration.None? <==> r[i].route.matcher == GoogleFontsStylesheet)
  {
    [ RegisterRoute(StaticPages),
      PrecacheAndRoute(manifest),
      RegisterRoute(ApiGetRequests),
      RegisterRoute(UiImages),
      RegisterRoute(FontFiles),
      RegisterRoute(GoogleFontsStylesheets) ]
  }

  /** The caches of the registered routes. */
  function RouteCacheNames(manifest: seq<ManifestEntry>): (r: seq<string>)
    ensures |r| == 5
    ensures forall x :: x in r <==> exists g :: g in Registrations(manifest) && g.RegisterRoute? && g.route.cacheName == x
  {
    var regs := Registrations(manifest);
    assert regs[0].route.cacheName == "static-pages" && regs[2].route.cacheName == "api-get-requests";
    assert regs[3].route.cacheName == "ui-images" && regs[4].route.cacheName == "font-files";
    assert regs[5].route.cacheName == "google-fonts-stylesheets";
    ["static-pages", "api-get-requests", "ui-images", "font-files", "google-fonts-stylesheets"]
  }

  /** `static-pages` is not a precache name. */
  lemma StaticPagesNotPrecache()
    ensures !StartsWith("static-pages", CacheCleanup.PrecachePrefix)
  {
    assert |CacheCleanup.PrecachePrefix| > |"static-pages"|;
  }

  /**
   * Of the route caches, activation deletes `static-pages` and keeps every
   * other one: all the others are on the keep-list.
   */
  lemma OnlyStaticPagesPurged(manifest: seq<ManifestEntry>)
    ensures forall x :: x in RouteCacheNames(manifest) ==> (CacheCleanup.IsKept(x) <==> x != "static-pages")
  {
    StaticPagesNotPrecache();
  }

  /**
   * After an upgrade, cleanup among caches that only routes and Workbox
   * precaches created deletes exactly the `static-pages` entries.
   */
  lemma UpgradeDeletesOnlyStaticPages(manifest: seq<ManifestEntry>, existing: seq<string>)
    requires forall x :: x in existing ==> x in RouteCacheNames(manifest) || StartsWith(x, CacheCleanup.PrecachePrefix)
    ensures forall x :: x in CacheCleanup.Deleted(existing) <==> x in existing && x == "static-pages"
  {
    OnlyStaticPagesPurged(manifest);
    StaticPagesNotPrecache();
  }

  /** Every expiring cache keeps at least one entry for at least a week. */
  lemma ExpirationLimitsPositive(manifest: seq<ManifestEntry>)
    ensures forall g :: g in Registrations(manifest) && g.RegisterRoute? && g.route.expiration.Some? ==>
              g.route.expiration.value.maxEntries >= 1 && g.route.expiration.value.maxAgeSeconds >= WeekInSeconds
  {
  }
}

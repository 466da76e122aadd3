/**
 * The URL matchers of the service worker, restated as predicates over URL
 * strings.  Each regular expression is split into an anchored pattern (a
 * predicate on a string that must match at its first character) and the
 * unanchored search that `RegExp.prototype.test` performs, `Search`.
 */
module UrlPatterns {

  /** `t` begins with `p`: `String.prototype.startsWith`, or a pattern anchored with `^`. */
  predicate StartsWith(t: string, p: string) {
    |p| <= |t| && t[..|p|] == p
  }

  /** `w` occurs in `s` at index `i`. */
  predicate OccursAt(s: string, i: int, w: string) {
    0 <= i && i + |w| <= |s| && s[i..i + |w|] == w
  }

  lemma StartsWithSuffix(s: string, i: int, w: string)
    requires 0 <= i <= |s|
    ensures StartsWith(s[i..], w) <==> OccursAt(s, i, w)
  {
    if i + |w| <= |s| {
      assert s[i..][..|w|] == s[i..i + |w|];
    }
  }

  /**
   * The unanchored search of `RegExp.prototype.test` (no `g` or `y` flag):
   * some suffix of `s`, the empty one included, begins with a match of `at`.
   */
  predicate Search(at: string -> bool, s: string)
    decreases |s|
  {
    at(s) || (|s| > 0 && Search(at, s[1..]))
  }

  lemma {:induction false} SearchSpec(at: string -> bool, s: string)
    ensures Search(at, s) <==> exists i :: 0 <= i <= |s| && at(s[i..])
  {
    if |s| == 0 {
      if exists i :: 0 <= i <= |s| && at(s[i..]) {
        var i :| 0 <= i <= |s| && at(s[i..]);
        assert s[i..] == s;
      }
    } else {
      SearchSpec(at, s[1..]);
      assert s[0..] == s;
      if Search(at, s[1..]) {
        var i :| 0 <= i <= |s| - 1 && at(s[1..][i..]);
        assert s[1..][i..] == s[i + 1..];
      }
      if exists i :: 0 <= i <= |s| && at(s[i..]) {
        var i :| 0 <= i <= |s| && at(s[i..]);
        if i == 0 {
          assert s[0..] == s;
        } else {
          assert s[1..][i - 1..] == s[i..];
        }
      }
    }
  }

  /** Searching with a narrower anchored pattern never finds more. */
  lemma SearchMonotonic(narrow: string -> bool, wide: string -> bool, s: string)
    requires forall t :: narrow(t) ==> wide(t)
    ensures Search(narrow, s) ==> Search(wide, s)
  {
    SearchSpec(narrow, s);
    SearchSpec(wide, s);
  }

  // ---------------------------------------------------------------------------
  // Navigation denylist: [/[^?]+\/(sign-out|...|preview_)/, /\.php($|#|\?)/]
  // ---------------------------------------------------------------------------

  /** The alternatives after the slash of the first denylist pattern, in the source's order. */
  const DenyKeywords: seq<string> :=
    ["sign-out", "support", "mailvalidation", "resetpass", "accountclose", "previews", "preview_"]

  /** `\/(sign-out|support|...|preview_)`, anchored. */
  predicate SlashKeywordAt(t: string) {
    exists k :: 0 <= k < |DenyKeywords| && StartsWith(t, "/" + DenyKeywords[k])
  }

  /** `[^?]+\/(...)`, anchored: one or more characters other than `?`, then the slash and a keyword. */
  predicate DynamicPageAt(t: string)
    decreases |t|
  {
    |t| > 0 && t[0] != '?' && (SlashKeywordAt(t[1..]) || DynamicPageAt(t[1..]))
  }

  /** The first denylist pattern: a dynamic page that must never be cached. */
  predicate IsDynamicPage(s: string) {
    Search(DynamicPageAt, s)
  }

  /** `\.php($|#|\?)`, anchored. */
  predicate PhpAt(t: string) {
    StartsWith(t, ".php") && (|t| == 4 || t[4] == '#' || t[4] == '?')
  }

  /** The second denylist pattern: a PHP response. */
  predicate IsPhpUrl(s: string) {
    Search(PhpAt, s)
  }

  /** The navigation denylist: some pattern of the list matches. */
  predicate Denylisted(s: string) {
    IsDynamicPage(s) || IsPhpUrl(s)
  }

  lemma {:induction false} DynamicPageAtWitness(s: string, i: int)
    requires 0 <= i <= |s| && DynamicPageAt(s[i..])
    ensures exists j :: i + 1 <= j <= |s| && s[j - 1] != '?' && SlashKeywordAt(s[j..])
    decreases |s| - i
  {
    assert s[i..][0] == s[i] && s[i..][1..] == s[i + 1..];
    if !SlashKeywordAt(s[i + 1..]) {
      DynamicPageAtWitness(s, i + 1);
    }
  }

  lemma SlashKeywordOccurs(s: string, j: int)
    requires 0 <= j <= |s|
    ensures SlashKeywordAt(s[j..]) <==>
            exists k :: 0 <= k < |DenyKeywords| && OccursAt(s, j, "/" + DenyKeywords[k])
  {
    forall k | 0 <= k < |DenyKeywords|
      ensures StartsWith(s[j..], "/" + DenyKeywords[k]) <==> OccursAt(s, j, "/" + DenyKeywords[k])
    {
      StartsWithSuffix(s, j, "/" + DenyKeywords[k]);
    }
  }

  lemma DynamicPageFound(s: string)
    requires IsDynamicPage(s)
    ensures exists j, k :: 1 <= j <= |s| && s[j - 1] != '?' && 0 <= k < |DenyKeywords|
                           && OccursAt(s, j, "/" + DenyKeywords[k])
  {
    SearchSpec(DynamicPageAt, s);
    var i :| 0 <= i <= |s| && DynamicPageAt(s[i..]);
    DynamicPageAtWitness(s, i);
    var j :| i + 1 <= j <= |s| && s[j - 1] != '?' && SlashKeywordAt(s[j..]);
    SlashKeywordOccurs(s, j);
  }

  lemma DynamicPageFrom(s: string, j: int, k: int)
    requires 1 <= j <= |s| && s[j - 1] != '?' && 0 <= k < |DenyKeywords|
    requires OccursAt(s, j, "/" + DenyKeywords[k])
    ensures IsDynamicPage(s)
  {
    SlashKeywordOccurs(s, j);
    assert s[j - 1..][1..] == s[j..];
    assert DynamicPageAt(s[j - 1..]);
    SearchSpec(DynamicPageAt, s);
  }

  /** Some slash that follows a character other than `?` is followed by one of the seven keywords. */
  ghost predicate KeywordAfterPathOccurs(s: string) {
    exists j, k :: 1 <= j <= |s| && s[j - 1] != '?' && 0 <= k < |DenyKeywords|
                   && OccursAt(s, j, "/" + DenyKeywords[k])
  }

  /**
   * A URL is a dynamic page exactly when some slash that follows a character
   * other than `?` is followed by one of the seven keywords.  The `+` of
   * `[^?]+` needs one such character and no more: a longer run is found by
   * the unanchored search starting later.
   */
  lemma DynamicPageSpec(s: string)
    ensures IsDynamicPage(s) <==> KeywordAfterPathOccurs(s)
  {
    if IsDynamicPage(s) {
      DynamicPageFound(s);
    }
    if exists j, k :: 1 <= j <= |s| && s[j - 1] != '?' && 0 <= k < |DenyKeywords|
                      && OccursAt(s, j, "/" + DenyKeywords[k]) {
      var j, k :| 1 <= j <= |s| && s[j - 1] != '?' && 0 <= k < |DenyKeywords|
                  && OccursAt(s, j, "/" + DenyKeywords[k]);
      DynamicPageFrom(s, j, k);
    }
  }

  lemma PhpAtOccurs(s: string, i: int)
    requires 0 <= i <= |s|
    ensures PhpAt(s[i..]) <==>
            (OccursAt(s, i, ".php") && i + 4 == |s|) || OccursAt(s, i, ".php#") || OccursAt(s, i, ".php?")
  {
    StartsWithSuffix(s, i, ".php");
    StartsWithSuffix(s, i, ".php#");
    StartsWithSuffix(s, i, ".php?");
  }

  /** `.php` occurs followed by the end of the string, `#` or `?`. */
  ghost predicate PhpEndingOccurs(s: string) {
    exists i :: (OccursAt(s, i, ".php") && i + 4 == |s|) || OccursAt(s, i, ".php#") || OccursAt(s, i, ".php?")
  }

  /** A URL is a PHP response exactly when `.php` occurs followed by the end, `#` or `?`. */
  lemma PhpUrlSpec(s: string)
    ensures IsPhpUrl(s) <==> PhpEndingOccurs(s)
  {
    SearchSpec(PhpAt, s);
    forall i | 0 <= i <= |s|
      ensures PhpAt(s[i..]) <==>
              (OccursAt(s, i, ".php") && i + 4 == |s|) || OccursAt(s, i, ".php#") || OccursAt(s, i, ".php?")
    {
      PhpAtOccurs(s, i);
    }
  }

  // ---------------------------------------------------------------------------
  // API GET requests: /\/api\/get\/[a-z/-]+$/
  // ---------------------------------------------------------------------------

  /** The class `[a-z/-]`. */
  predicate ApiChar(c: char) {
    ('a' <= c <= 'z') || c == '/' || c == '-'
  }

  const ApiGetPrefix: string := "/api/get/"

  /** `\/api\/get\/[a-z/-]+$`, anchored. */
  predicate ApiGetAt(t: string) {
    StartsWith(t, ApiGetPrefix) && |t| > |ApiGetPrefix|
    && forall k :: |ApiGetPrefix| <= k < |t| ==> ApiChar(t[k])
  }

  predicate IsApiGet(s: string) {
    Search(ApiGetAt, s)
  }

  /**
   * A URL is an API GET request exactly when `/api/get/` occurs in it and is
   * followed by one or more characters of `[a-z/-]` that run to the end.
   */
  lemma ApiGetAtOccurs(s: string, i: int)
    requires 0 <= i <= |s|
    ensures ApiGetAt(s[i..]) <==>
            OccursAt(s, i, ApiGetPrefix) && i + |ApiGetPrefix| < |s|
            && forall k :: i + |ApiGetPrefix| <= k < |s| ==> ApiChar(s[k])
  {
    StartsWithSuffix(s, i, ApiGetPrefix);
    assert forall k :: i <= k < |s| ==> s[i..][k - i] == s[k];
  }

  /** `/api/get/` occurs and is followed by one or more characters of `[a-z/-]` running to the end. */
  ghost predicate ApiGetTailOccurs(s: string) {
    exists i :: OccursAt(s, i, ApiGetPrefix) && i + |ApiGetPrefix| < |s|
                && forall k :: i + |ApiGetPrefix| <= k < |s| ==> ApiChar(s[k])
  }

  lemma ApiGetSpec(s: string)
    ensures IsApiGet(s) <==> ApiGetTailOccurs(s)
  {
    SearchSpec(ApiGetAt, s);
    forall i | 0 <= i <= |s|
      ensures ApiGetAt(s[i..]) <==>
              OccursAt(s, i, ApiGetPrefix) && i + |ApiGetPrefix| < |s|
              && forall k :: i + |ApiGetPrefix| <= k < |s| ==> ApiChar(s[k])
    {
      ApiGetAtOccurs(s, i);
    }
  }

  /** An API GET URL ends with a character of `[a-z/-]`: a query string or an upper-case letter at the end rules it out. */
  lemma ApiGetEndsInClass(s: string)
    requires IsApiGet(s)
    ensures |s| > 0 && ApiChar(s[|s| - 1])
  {
    ApiGetSpec(s);
  }

  // ---------------------------------------------------------------------------
  // UI images: /\/(web|_web\/contents)\/images\/(site|app|teasers|cursors)\/[^.]+\.([jpg|png|svg|cur])/
  // ---------------------------------------------------------------------------

  const AssetRoots: seq<string> := ["web", "_web/contents"]
  const ImageDirs: seq<string> := ["site", "app", "teasers", "cursors"]

  /** The bracket `[jpg|png|svg|cur]` of the source: a class of single characters, `|` included. */
  const ImageExtensionClass: string := "jpg|png|svg|cur"

  /** The four extensions the bracket evidently means. */
  const ImageExtensions: seq<string> := ["jpg", "png", "svg", "cur"]

  /** How the extension after the dot is read. */
  datatype ExtensionReading = SingleCharacterClass | WordAlternation

  /** `\.` followed by the extension, anchored. */
  predicate DotExtensionAt(v: string, reading: ExtensionReading) {
    |v| > 0 && v[0] == '.' &&
    match reading
    case SingleCharacterClass => |v| > 1 && v[1] in ImageExtensionClass
    case WordAlternation => exists e :: 0 <= e < |ImageExtensions| && StartsWith(v[1..], ImageExtensions[e])
  }

  /** `[^.]+\.` followed by the extension, anchored. */
  predicate NameAndExtensionAt(u: string, reading: ExtensionReading)
    decreases |u|
  {
    |u| > 0 && u[0] != '.' && (DotExtensionAt(u[1..], reading) || NameAndExtensionAt(u[1..], reading))
  }

  /** `/(web|_web/contents)/images/(site|app|teasers|cursors)/` for one choice of each group. */
  function ImagePrefix(r: nat, d: nat): string
    requires r < |AssetRoots| && d < |ImageDirs|
  {
    "/" + AssetRoots[r] + "/images/" + ImageDirs[d] + "/"
  }

  predicate ImageAt(t: string, reading: ExtensionReading) {
    exists r: nat, d: nat :: r < |AssetRoots| && d < |ImageDirs|
      && StartsWith(t, ImagePrefix(r, d)) && NameAndExtensionAt(t[|ImagePrefix(r, d)|..], reading)
  }

  predicate ImageAtAsWritten(t: string) {
    ImageAt(t, SingleCharacterClass)
  }

  predicate ImageAtIntended(t: string) {
    ImageAt(t, WordAlternation)
  }

  /** The image pattern exactly as the source writes it; the image route uses this one. */
  predicate IsUiImageAsWritten(s: string) {
    Search(ImageAtAsWritten, s)
  }

  /** The image pattern with `(jpg|png|svg|cur)` as the extension, as the source evidently intends. */
  predicate IsUiImage(s: string) {
    Search(ImageAtIntended, s)
  }

  lemma {:induction false} NameAndExtensionNarrows(u: string)
    ensures NameAndExtensionAt(u, WordAlternation) ==> NameAndExtensionAt(u, SingleCharacterClass)
    decreases |u|
  {
    if |u| > 0 && u[0] != '.' {
      NameAndExtensionNarrows(u[1..]);
      var v := u[1..];
      if DotExtensionAt(v, WordAlternation) {
        var e :| 0 <= e < |ImageExtensions| && StartsWith(v[1..], ImageExtensions[e]);
        assert v[1..][0] == ImageExtensions[e][0];
        assert v[1] in ImageExtensionClass;
      }
    }
  }

  /** Every URL the intended image pattern accepts is accepted by the pattern as written. */
  lemma UiImageNarrowsAsWritten(s: string)
    ensures IsUiImage(s) ==> IsUiImageAsWritten(s)
  {
    forall t | ImageAtIntended(t) ensures ImageAtAsWritten(t) {
      var r: nat, d: nat :| r < |AssetRoots| && d < |ImageDirs|
        && StartsWith(t, ImagePrefix(r, d)) && NameAndExtensionAt(t[|ImagePrefix(r, d)|..], WordAlternation);
      NameAndExtensionNarrows(t[|ImagePrefix(r, d)|..]);
    }
    SearchMonotonic(ImageAtIntended, ImageAtAsWritten, s);
  }

  lemma {:induction false} NameAndExtensionWitness(s: string, i: int, reading: ExtensionReading)
    requires 0 <= i <= |s| && NameAndExtensionAt(s[i..], reading)
    ensures exists j :: i + 1 <= j <= |s| && DotExtensionAt(s[j..], reading)
    decreases |s| - i
  {
    assert s[i..][1..] == s[i + 1..];
    if !DotExtensionAt(s[i + 1..], reading) {
      NameAndExtensionWitness(s, i + 1, reading);
    }
  }

  lemma DotExtensionOccurs(s: string, q: int)
    requires 0 <= q <= |s| && DotExtensionAt(s[q..], WordAlternation)
    ensures exists e :: 0 <= e < |ImageExtensions| && OccursAt(s, q, "." + ImageExtensions[e])
  {
    var v := s[q..];
    var e :| 0 <= e < |ImageExtensions| && StartsWith(v[1..], ImageExtensions[e]);
    var w := "." + ImageExtensions[e];
    assert v[..|w|] == [v[0]] + v[1..][..|ImageExtensions[e]|];
    StartsWithSuffix(s, q, w);
  }

  lemma ImageAtFound(s: string, i: int)
    requires 0 <= i <= |s| && ImageAtIntended(s[i..])
    ensures exists q :: i <= q <= |s| && DotExtensionAt(s[q..], WordAlternation)
  {
    var r: nat, d: nat :| r < |AssetRoots| && d < |ImageDirs|
      && StartsWith(s[i..], ImagePrefix(r, d)) && NameAndExtensionAt(s[i..][|ImagePrefix(r, d)|..], WordAlternation);
    var k := i + |ImagePrefix(r, d)|;
    assert s[i..][|ImagePrefix(r, d)|..] == s[k..];
    NameAndExtensionWitness(s, k, WordAlternation);
  }

  /** The intended image pattern needs `.jpg`, `.png`, `.svg` or `.cur` to occur in the URL. */
  lemma UiImageHasExtension(s: string)
    requires IsUiImage(s)
    ensures exists m, e :: 0 <= e < |ImageExtensions| && OccursAt(s, m, "." + ImageExtensions[e])
  {
    SearchSpec(ImageAtIntended, s);
    var i :| 0 <= i <= |s| && ImageAtIntended(s[i..]);
    ImageAtFound(s, i);
    var q :| i <= q <= |s| && DotExtensionAt(s[q..], WordAlternation);
    DotExtensionOccurs(s, q);
  }

  /** A URL made of a dot-free name, a dot and a dot-free tail that starts with none of the four extensions. */
  lemma NoImageExtension(name: string, tail: string)
    requires '.' !in name && '.' !in tail
    requires forall e :: 0 <= e < |ImageExtensions| ==> !StartsWith(tail, ImageExtensions[e])
    ensures !IsUiImage(name + "." + tail)
  {
    var s := name + "." + tail;
    forall m, e | 0 <= e < |ImageExtensions| ensures !OccursAt(s, m, "." + ImageExtensions[e]) {
      var w := "." + ImageExtensions[e];
      if 0 <= m && m + |w| <= |s| {
        if m < |name| {
          assert s[m] == name[m];
          assert s[m..m + |w|][0] != w[0];
        } else if m > |name| {
          assert s[m] == tail[m - |name| - 1];
          assert s[m..m + |w|][0] != w[0];
        } else {
          assert s[m + 1..m + |w|] == tail[..|ImageExtensions[e]|];
          assert s[m..m + |w|][1..] != w[1..];
        }
      }
    }
    if IsUiImage(s) {
      UiImageHasExtension(s);
    }
  }

  /** From `k` to `j` a non-empty dot-free name, then the dot at `j` and a character of the bracket at `j + 1`. */
  predicate NameThenClassAt(s: string, k: int, j: int) {
    0 <= k < j < |s| - 1 && s[j] == '.' && s[j + 1] in ImageExtensionClass
    && forall m :: k <= m < j ==> s[m] != '.'
  }

  lemma {:induction false} NameClassWitness(s: string, k: int)
    requires 0 <= k <= |s| && NameAndExtensionAt(s[k..], SingleCharacterClass)
    ensures exists j :: NameThenClassAt(s, k, j)
    decreases |s| - k
  {
    assert s[k..][0] == s[k] && s[k..][1..] == s[k + 1..];
    if DotExtensionAt(s[k + 1..], SingleCharacterClass) {
      assert s[k + 1..][1] == s[k + 2];
      assert NameThenClassAt(s, k, k + 1);
    } else {
      NameClassWitness(s, k + 1);
      var j :| NameThenClassAt(s, k + 1, j);
      assert NameThenClassAt(s, k, j);
    }
  }

  lemma {:induction false} NameClassFrom(s: string, k: int, j: int)
    requires NameThenClassAt(s, k, j)
    ensures NameAndExtensionAt(s[k..], SingleCharacterClass)
    decreases j - k
  {
    assert s[k..][0] == s[k] && s[k..][1..] == s[k + 1..];
    if j == k + 1 {
      assert s[j..][0] == '.' && s[j..][1] == s[j + 1];
    } else {
      NameClassFrom(s, k + 1, j);
    }
  }

  /**
   * The pattern as written, at given indices: the prefix for root `r` and
   * directory `d` at `i`, a non-empty dot-free name up to `j`, the dot at
   * `j` and a character of the bracket at `j + 1`.
   */
  predicate AsWrittenImageAt(s: string, i: int, r: nat, d: nat, j: int) {
    r < |AssetRoots| && d < |ImageDirs| && OccursAt(s, i, ImagePrefix(r, d))
    && NameThenClassAt(s, i + |ImagePrefix(r, d)|, j)
  }

  ghost predicate AsWrittenImageOccurs(s: string) {
    exists i, r: nat, d: nat, j :: AsWrittenImageAt(s, i, r, d, j)
  }

  lemma AsWrittenImageFound(s: string, i: int)
    requires 0 <= i <= |s| && ImageAtAsWritten(s[i..])
    ensures exists r: nat, d: nat, j :: AsWrittenImageAt(s, i, r, d, j)
  {
    var r: nat, d: nat :| r < |AssetRoots| && d < |ImageDirs|
      && StartsWith(s[i..], ImagePrefix(r, d)) && NameAndExtensionAt(s[i..][|ImagePrefix(r, d)|..], SingleCharacterClass);
    var k := i + |ImagePrefix(r, d)|;
    assert s[i..][|ImagePrefix(r, d)|..] == s[k..];
    StartsWithSuffix(s, i, ImagePrefix(r, d));
    NameClassWitness(s, k);
    var j :| NameThenClassAt(s, k, j);
    assert AsWrittenImageAt(s, i, r, d, j);
  }

  lemma AsWrittenImageFrom(s: string, i: int, r: nat, d: nat, j: int)
    requires AsWrittenImageAt(s, i, r, d, j)
    ensures IsUiImageAsWritten(s)
  {
    var k := i + |ImagePrefix(r, d)|;
    StartsWithSuffix(s, i, ImagePrefix(r, d));
    NameClassFrom(s, k, j);
    assert s[i..][|ImagePrefix(r, d)|..] == s[k..];
    assert ImageAtAsWritten(s[i..]);
    SearchSpec(ImageAtAsWritten, s);
  }

  /**
   * The image pattern as written matches exactly when an image-directory
   * prefix occurs, followed by a non-empty run of characters other than `.`,
   * a dot and one character of the bracket: `.gif`, `.css` and `.ru` are
   * taken, `.webp` and `.bmp` are not.
   */
  lemma UiImageAsWrittenSpec(s: string)
    ensures IsUiImageAsWritten(s) <==> AsWrittenImageOccurs(s)
  {
    if IsUiImageAsWritten(s) {
      SearchSpec(ImageAtAsWritten, s);
      var i :| 0 <= i <= |s| && ImageAtAsWritten(s[i..]);
      AsWrittenImageFound(s, i);
    }
    if exists i, r: nat, d: nat, j :: AsWrittenImageAt(s, i, r, d, j) {
      var i, r: nat, d: nat, j :| AsWrittenImageAt(s, i, r, d, j);
      AsWrittenImageFrom(s, i, r, d, j);
    }
  }

  lemma {:induction false} NameThenClassCharacter(name: string, c: char, rest: string)
    requires |name| > 0 && '.' !in name && c in ImageExtensionClass
    ensures NameAndExtensionAt(name + "." + [c] + rest, SingleCharacterClass)
    decreases |name|
  {
    var u := name + "." + [c] + rest;
    assert u[0] == name[0];
    assert u[1..] == name[1..] + "." + [c] + rest;
    if |name| > 1 {
      NameThenClassCharacter(name[1..], c, rest);
    }
  }

  /** The pattern as written takes any one character of the bracket after the dot, `j` of `.json` say. */
  lemma AsWrittenAcceptsClassCharacter(r: nat, d: nat, name: string, c: char, rest: string)
    requires r < |AssetRoots| && d < |ImageDirs|
    requires |name| > 0 && '.' !in name && c in ImageExtensionClass
    ensures IsUiImageAsWritten(ImagePrefix(r, d) + name + "." + [c] + rest)
  {
    var p := ImagePrefix(r, d);
    var s := p + name + "." + [c] + rest;
    NameThenClassCharacter(name, c, rest);
    assert s[..|p|] == p;
    assert s[|p|..] == name + "." + [c] + rest;
    assert ImageAtAsWritten(s);
  }

  lemma ImagePrefixDotFree(r: nat, d: nat)
    requires r < |AssetRoots| && d < |ImageDirs|
    ensures '.' !in ImagePrefix(r, d)
  {
    assert '.' !in AssetRoots[r];
    assert '.' !in ImageDirs[d];
  }

  /**
   * The bracket `[jpg|png|svg|cur]` admits any one of its characters after
   * the dot, so the pattern as written and the intended one disagree on a
   * URL under an image directory whose extension starts with such a
   * character without being one of the four: `/web/images/app/x.json`, with
   * `x` as the name and `json` as the tail.
   */
  lemma ImageClassOvermatches(r: nat, d: nat, name: string, tail: string)
    requires r < |AssetRoots| && d < |ImageDirs|
    requires |name| > 0 && '.' !in name && '.' !in tail
    requires |tail| > 0 && tail[0] in ImageExtensionClass
    requires forall e :: 0 <= e < |ImageExtensions| ==> !StartsWith(tail, ImageExtensions[e])
    ensures IsUiImageAsWritten(ImagePrefix(r, d) + name + "." + tail)
    ensures !IsUiImage(ImagePrefix(r, d) + name + "." + tail)
  {
    var p := ImagePrefix(r, d);
    AsWrittenAcceptsClassCharacter(r, d, name, tail[0], tail[1..]);
    assert p + name + "." + [tail[0]] + tail[1..] == p + name + "." + tail;
    ImagePrefixDotFree(r, d);
    assert '.' !in p + name;
    assert p + name + "." + tail == (p + name) + "." + tail;
    NoImageExtension(p + name, tail);
  }

  // ---------------------------------------------------------------------------
  // Fonts: /\/(web|_web\/contents)\/(user-)?fonts\//  and  /^https:\/\/fonts\.gstatic\.com/
  // ---------------------------------------------------------------------------

  const FontDirs: seq<string> := ["fonts/", "user-fonts/"]

  /** `/(web|_web/contents)/(user-)?fonts/` for one choice of each group. */
  function FontPrefix(r: nat, f: nat): string
    requires r < |AssetRoots| && f < |FontDirs|
  {
    "/" + AssetRoots[r] + "/" + FontDirs[f]
  }

  predicate FontPathAt(t: string) {
    exists r: nat, f: nat :: r < |AssetRoots| && f < |FontDirs| && StartsWith(t, FontPrefix(r, f))
  }

  predicate IsFontPath(s: string) {
    Search(FontPathAt, s)
  }

  const GoogleFontFilesOrigin: string := "https://fonts.gstatic.com"
  const GoogleFontsStylesheetOrigin: string := "https://fonts.googleapis.com"

  /** The URL starts with the Google font-file origin, or one of the four font directories occurs in it. */
  ghost predicate FontLocationOccurs(s: string) {
    StartsWith(s, GoogleFontFilesOrigin)
    || exists i, r: nat, f: nat :: r < |AssetRoots| && f < |FontDirs| && OccursAt(s, i, FontPrefix(r, f))
  }

  /** The font route: `[fontsRegex, googleFontsRegex].some(regex => regex.test(url))`. */
  predicate IsFontFile(s: string) {
    IsFontPath(s) || StartsWith(s, GoogleFontFilesOrigin)
  }

  /** The Google Fonts stylesheet route. */
  predicate IsGoogleFontsStylesheet(s: string) {
    StartsWith(s, GoogleFontsStylesheetOrigin)
  }

  /**
   * A URL is a font file exactly when it starts with the Google font-file
   * origin or one of the four font directories occurs in it.
   */
  lemma FontFileSpec(s: string)
    ensures IsFontFile(s) <==> FontLocationOccurs(s)
  {
    SearchSpec(FontPathAt, s);
    if IsFontPath(s) {
      var i :| 0 <= i <= |s| && FontPathAt(s[i..]);
      var r: nat, f: nat :| r < |AssetRoots| && f < |FontDirs| && StartsWith(s[i..], FontPrefix(r, f));
      StartsWithSuffix(s, i, FontPrefix(r, f));
    }
    if exists i, r: nat, f: nat :: r < |AssetRoots| && f < |FontDirs| && OccursAt(s, i, FontPrefix(r, f)) {
      var i, r: nat, f: nat :| r < |AssetRoots| && f < |FontDirs| && OccursAt(s, i, FontPrefix(r, f));
      StartsWithSuffix(s, i, FontPrefix(r, f));
      assert FontPathAt(s[i..]);
    }
  }

  /**
   * The two Google origins never overlap: a stylesheet URL is never taken
   * for a Google font file, so the two kinds land in different caches.
   */
  lemma GoogleOriginsDisjoint(s: string)
    ensures IsGoogleFontsStylesheet(s) ==> !StartsWith(s, GoogleFontFilesOrigin)
  {
    if IsGoogleFontsStylesheet(s) && |s| >= |GoogleFontFilesOrigin| {
      assert s[15] == GoogleFontsStylesheetOrigin[15] by {
        assert s[..|GoogleFontsStylesheetOrigin|][15] == s[15];
      }
      assert s[..|GoogleFontFilesOrigin|][15] == s[15];
      assert GoogleFontsStylesheetOrigin[15] != GoogleFontFilesOrigin[15];
    }
  }
}

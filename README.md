# Service worker: cache cleanup, message handshake and route table

A Dafny model of the logic that `service-worker.js` implements itself, on
top of the Workbox library it configures:

- the URL tests its routes use (the navigation denylist, the API GET
  pattern, the UI-image pattern, the font and Google-font patterns), written
  as predicates over URL strings. `RegExp.prototype.test` becomes `Search`, a
  search over the string's suffixes for a pattern anchored at its first
  character;
- the routes in registration order, kept as data: strategy name, cache name
  and expiration limits;
- the `activate` handler. It deletes every cache that is neither on the
  keep-list nor a `workbox-precache-` cache, and calls `clients.claim()` only
  once every deletion has resolved. The `Activation` class follows the
  deletions one settlement at a time;
- the `message` handler. `SKIP_WAITING` starts a handshake: one
  `skipWaiting()` call now, and one more call if the 2000 ms timer fires
  before the first call has settled. `GET_VERSION` replies with the version
  token. `CLAIM_CLIENTS` claims the clients. Any other message does nothing.
  The `SkipWaitingHandler` class holds the completion flag and the call
  count, and `Run` replays any order of host events over them.

Host calls (`caches.delete`, `clients.claim`, `postMessage`) are recorded as
values of `HostEffects.Effect`. The host's asynchronous events (a promise
settling, a timer firing) are methods that the host calls.

Files: `options.dfy`, `host_effects.dfy`, `url_patterns.dfy`, `routes.dfy`,
`cache_cleanup.dfy`, `skip_waiting.dfy`, `messages.dfy`.

### Behaviour of the code worth noting

- Every cache whose name starts with `workbox-precache-` is kept, the
  precaches of earlier versions included.
- If a `caches.delete` promise rejects, `Promise.all` rejects and
  `clients.claim()` is never called.
- A `GET_VERSION` message without a port throws a `TypeError` at
  `event.ports[0].postMessage`.
- When the skip-waiting timer finds the first call unsettled, it only logs
  before calling again; the log line is not modelled.
- The UI-image route uses its regular expression as written, so its
  bracket `[jpg|png|svg|cur]` admits any one of those characters after the
  dot (see "## Findings").

## Model

| member | source | states |
|---|---|---|
| `UrlPatterns.SearchSpec` | service-worker.js:80 | `regex.test(url)` without `^` holds exactly when the anchored pattern matches at some index of the URL, the end included |
| `UrlPatterns.DynamicPageSpec` | service-worker.js:50 | the first denylist pattern matches exactly when some `/` that follows a character other than `?` is followed by one of the seven keywords; both directions |
| `UrlPatterns.PhpUrlSpec` | service-worker.js:50 | the second denylist pattern matches exactly when `.php` occurs followed by the end of the string, `#` or `?`; both directions |
| `UrlPatterns.ApiGetSpec` | service-worker.js:78-80 | the API route matches exactly when `/api/get/` occurs and is followed by one or more characters of `[a-z/-]` running to the end of the URL; both directions |
| `UrlPatterns.ApiGetEndsInClass` | service-worker.js:78 | an API GET URL ends with a character of `[a-z/-]`, so a trailing query value such as `?y=1` rules it out |
| `UrlPatterns.UiImageAsWrittenSpec` | service-worker.js:95-97 | the image route's pattern, as written, matches exactly when an image-directory prefix occurs and is followed by a non-empty dot-free name, a dot and one character of the bracket `[jpg...cur]`, the bar included; both directions |
| `UrlPatterns.AsWrittenAcceptsClassCharacter` | service-worker.js:95 | as the source writes it, the image pattern accepts an image-directory prefix, a dot-free name, a dot and any one character of the bracket, whatever follows |
| `UrlPatterns.ImageClassOvermatches` | service-worker.js:95 | for every image-directory prefix, dot-free name and dot-free tail that starts with a character of the bracket but with none of `jpg`, `png`, `svg`, `cur`, the pattern as written accepts the URL and the intended pattern rejects it |
| `UrlPatterns.UiImageNarrowsAsWritten` | service-worker.js:95-97 | every URL the intended image pattern accepts is also accepted by the pattern as written |
| `UrlPatterns.UiImageHasExtension` | service-worker.js:95 | a URL the intended image pattern accepts contains `.jpg`, `.png`, `.svg` or `.cur` |
| `UrlPatterns.NoImageExtension` | service-worker.js:95 | a dot-free name, then a dot, then a dot-free tail that starts with none of the four extensions, is not a UI image |
| `UrlPatterns.FontFileSpec` | service-worker.js:112-115 | the font route matches exactly when the URL starts with `https://fonts.gstatic.com` or contains one of `/web/fonts/`, `/web/user-fonts/`, `/_web/contents/fonts/`, `/_web/contents/user-fonts/`; both directions |
| `UrlPatterns.GoogleOriginsDisjoint` | service-worker.js:113-132 | a URL that starts with the Google stylesheet origin never starts with the Google font-file origin |
| `Routes.Matches` | service-worker.js:35-131 | each route's test, as the source writes it, holds exactly when its closed form does: the navigation route when neither denylist pattern occurs, the API route when `/api/get/` is followed by `[a-z/-]+` to the end, the image route when its pattern as written occurs, the font route when a font directory occurs or the URL starts with `https://fonts.gstatic.com`, the stylesheet route when the URL starts with `https://fonts.googleapis.com` |
| `Routes.Registrations` | service-worker.js:35-136 | six registrations in script order: the navigation route first and the manifest precached exactly once, second. No two routes share a test or a cache. Exactly the image and font routes are cache-first, and only the stylesheet route has no expiration |
| `Routes.RouteCacheNames` | service-worker.js:35-134 | the routes registered in order use exactly the five caches `static-pages`, `api-get-requests`, `ui-images`, `font-files` and `google-fonts-stylesheets` |
| `Routes.OnlyStaticPagesPurged` | service-worker.js:31-72 | of the route caches, `static-pages` is the only one not kept across versions |
| `Routes.UpgradeDeletesOnlyStaticPages` | service-worker.js:155-161 | when every existing cache is a route cache or a Workbox precache, activation deletes exactly the `static-pages` entries |
| `Routes.ExpirationLimitsPositive` | service-worker.js:17-18 | every route's expiration keeps at least one entry. Its maximum age is at least 604800 seconds, one week |
| `CacheCleanup.Deleted` | service-worker.js:155-161 | the deleted names are exactly the existing names that are neither on the keep-list nor prefixed `workbox-precache-`, with their multiplicities, in their listed order |
| `CacheCleanup.Retained` | service-worker.js:160 | the retained names are exactly the kept existing names, in their listed order |
| `CacheCleanup.CleanupPartitions` | service-worker.js:159-161 | every existing name is either deleted or retained, never both, and none is lost |
| `CacheCleanup.Activation.constructor` | service-worker.js:154-162 | one `caches.delete` is issued per deleted name, in order. Nothing has settled yet. Clients are claimed at once only when there is nothing to delete |
| `CacheCleanup.Activation.OnDeleteSettled` | service-worker.js:156-165 | a deletion settling is recorded. `clients.claim()` is issued, as the last call, exactly when every deletion has resolved and none rejected |
| `CacheCleanup.ClaimFollowsDeletes` | service-worker.js:163-165 | once the clients are claimed, the claim is the last call and follows one deletion call per deleted name, all of them resolved |
| `SkipWaiting.RunSpec` | service-worker.js:177-194 | after any sequence of host events, the flag is set exactly when the first call has settled, whether it succeeded or failed. The second call happens exactly when the timer fired before that settlement |
| `SkipWaiting.CallsBounded` | service-worker.js:187-194 | `skipWaiting()` is called once or twice per message, never more |
| `SkipWaiting.SkipWaitingHandler.constructor` | service-worker.js:177-178 | on `SKIP_WAITING` the flag is unset, the timer is armed and one call has been made |
| `SkipWaiting.SkipWaitingHandler.OnFirstCallSettled` | service-worker.js:178-180 | when the first call settles, successfully or not, the flag becomes true and nothing else changes |
| `SkipWaiting.SkipWaitingHandler.OnTimerFired` | service-worker.js:187-194 | when the timer fires, it calls `skipWaiting()` again exactly when it is firing for the first time and the flag is still false. The call count stays at most 2 |
| `Messages.OnMessage` | service-worker.js:13-205 | `SKIP_WAITING` starts the handshake and nothing else. `GET_VERSION` posts the constant version `3869435683` to the first port, or throws when there is no port. `CLAIM_CLIENTS` claims the clients. A message with no data or another type does nothing |
| `Messages.MessageEffectsBounded` | service-worker.js:198-204 | a message makes at most one host call, never deletes a cache, and any version reply carries the version and goes to `ports[0]` |
| `Messages.Dispatch` | service-worker.js:174-196 | a fresh handshake, with one call made and the flag unset, is created exactly for `SKIP_WAITING` messages |

## Findings

| source | as written | input that shows it | evidently intended | confidence | as-written member | corrected member |
|---|---|---|---|---|---|---|
| service-worker.js:95 | the bracket after the dot is a character class: any one character of `jpg`, `png`, `svg`, `cur` or the bar character | `/web/images/app/x.json` matches, with name `x` and tail `json`; so would `.gif`, `.css` or `.ru` | a group of four alternatives: the extension is one of `jpg`, `png`, `svg`, `cur` | high; not executed | `UrlPatterns.ImageClassOvermatches` | `UrlPatterns.UiImageHasExtension` |

`UrlPatterns.IsUiImageAsWritten` is the pattern as written, and the route
table (`Routes.Matches`) uses it, as the code does. `UrlPatterns.IsUiImage` is
the pattern with the word alternation: `UiImageNarrowsAsWritten`,
`UiImageHasExtension` and `NoImageExtension` are proved about it.

## Left out

- Loading Workbox, `setConfig`, `loadModule` and enabling navigation preload (lines 5-11, 26): these are calls into a library that is not part of this model.
- NetworkFirst, CacheFirst, StaleWhileRevalidate, ExpirationPlugin and `precacheAndRoute` run inside Workbox. They appear only as named configuration data, not as behaviour.
- How Workbox picks a route for a request is not modelled: first match, precache priority, NavigationRoute accepting only navigation requests, and the fact that NavigationRoute tests its lists against the path and query rather than the full URL. The matchers are predicates over whatever string they are given.
- The precache manifest literal (line 61) is an opaque input sequence of `ManifestEntry`.
- `caches.keys()` is a constructor argument of `Activation`. Its rejection, which would skip both cleanup and claim, is not modelled.
- `clients.matchAll` (lines 147-151) only feeds a log line; it and all logging (lines 15-16, 139, 144, 150, 179, 190, 192) are console output.
- Real timers, promise scheduling and `event.waitUntil`. Settling and timer firing are events the host delivers. A repeated timer event is a no-op, and the host never sends one.
- The settlement of the second `skipWaiting()` call changes no state in the source (its `.catch` only logs), so it is not an event of the model.
- Regular expressions over non-string URL values: `test` converts its argument to a string, and the model takes that string as given.

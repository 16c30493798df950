# makumark core in Dafny

makumark serves one theatre quote per day ("today's quote"). Clients can
like a quote, keep a list of liked quotes, and their views and clicks are
logged. This project models the core of the Django backend and the logic
of the Vue frontend as pure functions over immutable state, and proves
properties of them.

Backend:

- `QuoteModels`: the `Quote` and `Favorite` tables (`Db`) with their
  invariants. Quote ids are unique. Each `(quote, client_id)` pair appears
  at most once. Every favorite points at an existing quote. Each quote's
  `like_count` equals the number of its favorites.
- `QuoteViews`: the client-id lookup, today's quote with its fallbacks, the
  exact by-date lookup, the favorite toggle and the favorite list.
- `Tracking`: the active-campaign filter and the four logging endpoints as
  400/404/201 decision tables, plus cascade deletion. It keeps its own
  copy of the quote table, so one Django quote deletion appears twice in
  the model: `QuoteModels.DeleteQuote` removes the quote's favorites and
  `Tracking.DeleteQuote` removes its view and click logs.
- `AuthorMigration`: the rule by which migration 0002 splits `author` into
  `author_name` and `source`.
- `AdminPreview`: the 40-character preview in the admin list.
- `MonthGenerator`: the per-day skip/retry/accept loop of
  `generate_month_quotes`. The language-model fetches arrive as an input
  sequence of results.

Frontend:

- `VersionCheck`: the dotted-version comparison and the update-prompt
  guard.
- `Notifications`: the saved notification time, with defaults and
  clamping.
- `Daily`: the local `YYYY-MM-DD` stamp and the day-change refresh.
- `ApiClient`: the client id, the auth header, the rule that `client_id`
  is sent only when anonymous, and the cache-or-throw fallback.
- `UserStore`: the auth state machine.

Shared modules:

- `Wrappers`: `Option` and JavaScript truthiness of a stored string.
- `Calendar`: dates and month lengths.
- `Strings`: Python and JavaScript whitespace, `strip`, `find` and
  `split`/`join`.
- `Numerals`: decimal numerals and zero padding.
- `Sorting`: insertion sort under a total preorder.
- `LocalStorage`: `localStorage` as `map<string, string>`.

Some inputs are parameters rather than computations:

- "Today" and the current time.
- The random choice among quotes.
- Generated client ids.
- Network outcomes.
- ISO date parsing.
- The JSON codec of the frontend cache.

## Model

| member | source | states |
|---|---|---|
| QuoteViews.ClientIdFromRequest | quotes/views.py:14-20 | A non-empty `X-Client-Id` header wins over the `client_id` query parameter. The result is empty exactly when both are missing or empty. |
| QuoteViews.GetByDate | quotes/views.py:35 | A `get(publish_date=d)` returns the unique row on that date. It fails with DoesNotExist exactly when no row has the date. It reports MultipleObjectsReturned only when two rows share a date. |
| QuoteViews.LatestOnOrBefore | quotes/views.py:37-39 | Returns a quote dated on or before the day, and no other such quote is dated later. It returns nothing exactly when every quote is dated after the day. |
| QuoteViews.Liked | quotes/views.py:45-47 | `liked` holds exactly when the client id is non-empty and a favorite row of that client on that quote exists (the same test as quotes/views.py:146-148). A liked quote has at least one favorite. |
| QuoteViews.TodayQuote | quotes/views.py:29-53 | 404 exactly when there are no quotes. Otherwise the result is the quote dated today if one exists, else the latest quote dated before today, else some quote. `liked` holds iff this client has a favorite on it. With at most one quote per date the view never errors. |
| QuoteViews.QuoteByDate | quotes/views.py:130-153 | 400 exactly when the date is missing or does not parse. 404 exactly when no quote has that exact date. Otherwise it returns the quote on that date, with `liked` as for today's quote. |
| QuoteViews.TodayAgreesWithByDate | quotes/views.py:34-35 | When a quote is dated today, today's quote and the by-date lookup for today give the same reply. |
| QuoteViews.ByDateHasNoFallback | quotes/views.py:141-144 | When nothing is dated today but an earlier quote exists, today's quote succeeds while the by-date lookup for today is a 404. |
| QuoteViews.OnDateTwice | quotes/models.py:32-36 | Two rows on one date break "at most one quote per date", which the schema does not enforce. |
| QuoteViews.ToggleClientId | quotes/views.py:64-70 | The client id comes from the body, else the header, else the query. It is empty exactly when all three are missing or empty. |
| QuoteViews.ToggleFavorite | quotes/views.py:63-95 | An empty client id gives 400 and an unknown pk gives 404; both leave the database unchanged. Otherwise a missing favorite is added with `liked = true`, or an existing one is deleted with `liked = false`. The quote's count moves by +1 or -1 and the reply carries the new count. No other quote and no other favorite changes. |
| QuoteViews.WriteToggle | quotes/views.py:77-91 | The atomic write replaces the favorite rows and moves only the toggled quote's count, and keeps the tables well formed. |
| QuoteViews.ToggleKeepsValid | quotes/views.py:77-91 | From a valid database, a toggle keeps `like_count` equal to the number of each quote's favorites. It never hits the counter's non-negativity error. |
| QuoteViews.ToggleTwiceRestores | quotes/views.py:77-95 | Two toggles by one client on one quote restore every quote row and the set of favorites, and flip `liked` twice. When the first toggle added the favorite, the database is restored exactly. |
| QuoteViews.UndoToggle | quotes/views.py:77-95 | After a successful toggle, the same client toggling the same quote again also succeeds. It flips `liked` back, restores every quote row and the set of favorites, and restores the database exactly when the first toggle added the favorite. |
| QuoteViews.ToggleAdds | quotes/views.py:78-85 | A client without a favorite on an existing quote gets one appended, `liked = true`, and the count plus one. |
| QuoteViews.ToggleRemoves | quotes/views.py:78-90 | A client holding a favorite on a quote with a positive count loses that row, gets `liked = false`, and the count minus one. |
| QuoteViews.ToggleSetsCount | quotes/views.py:82-93 | A successful toggle leaves every other quote row as it was, and the toggled quote shows the returned count. |
| QuoteViews.ToggleInTurn | quotes/views.py:77-91 | Toggles by any sequence of clients keep the database valid. |
| QuoteViews.DistinctTogglesAddUp | quotes/views.py:77-91 | Distinct new clients each liking a quote once raise its count by exactly their number, and each of them ends up with a favorite. |
| QuoteViews.FavoritesOnlyGrow | quotes/views.py:77-91 | Distinct new clients liking a quote never remove an existing favorite. |
| QuoteViews.NewestFirst | quotes/views.py:111 | The client's favorites are exactly the favorite rows with that client id. |
| QuoteViews.NewestFirstCounts | quotes/views.py:111 | The list holds each of the client's favorite rows exactly as many times as the table does, and no row of another client. |
| QuoteViews.NewerListedEarlier | quotes/views.py:111 | Of two favorites of one client, the later-written one is listed before the earlier one, so the list is newest first. |
| QuoteViews.FavoriteBodies | quotes/views.py:112-119 | Each listed body is a stored quote with `liked = true` that one of the favorites points at. When every favorite points at a stored quote, there is one body per favorite, in the same order. |
| QuoteViews.FavoriteList | quotes/views.py:106-121 | 400 exactly when the client id is empty. Otherwise it lists, newest first, one liked body per favorite of this client, and only for quotes this client likes. |
| QuoteViews.MineReferToQuotes | quotes/models.py:72-77 | Every favorite of a client points at an existing quote. |
| QuoteViews.LikedQuoteListedFirst | quotes/views.py:111 | A quote the client has just liked heads the client's favorite list. |
| QuoteModels.CategoryFromCode | quotes/models.py:5-12 | A stored category value decodes only to the choice that encodes it. |
| QuoteModels.CategoryCodeRoundTrip | quotes/models.py:5-12 | Every category choice decodes back from its stored value, so the six codes are distinct. |
| QuoteModels.FindQuote | quotes/models.py:4-62 | A lookup by pk succeeds exactly when a row with that id exists, and returns such a row. |
| QuoteModels.FindQuoteUnique | quotes/models.py:4-62 | With unique ids, the lookup by a row's id returns that very row. |
| QuoteModels.Without | quotes/models.py:85-86 | Deleting one favorite removes exactly that pair and keeps every other row. |
| QuoteModels.LikesOfWithout | quotes/models.py:85-86 | With unique pairs, deleting a favorite lowers its quote's favorite count by one and leaves other quotes' counts alone. |
| QuoteModels.WithoutKeepsUnique | quotes/models.py:85-86 | Deleting a favorite keeps the `(quote, client_id)` pairs unique. |
| QuoteModels.DeleteQuote | quotes/models.py:72-77 | Deleting a quote removes that quote and, by cascade, exactly its favorites. |
| QuoteModels.DeleteQuotePreservesValid | quotes/models.py:72-77 | Deleting a quote keeps the database valid and leaves no favorite pointing at it. |
| QuoteModels.AddQuotePreservesValid | quotes/models.py:51-54 | Adding a quote with a fresh id and the default `like_count` 0 keeps the database valid, counters included. |
| QuoteModels.LikesOfUnreferenced | quotes/models.py:51-54 | A quote no favorite points at has zero favorites, which matches the default count 0. |
| QuoteModels.ListedBeforeIsTotalPreorder | quotes/models.py:59 | Newest date first, then highest id first, is a total preorder. |
| QuoteModels.DefaultOrdering | quotes/models.py:59 | The default ordering is a permutation of the rows, sorted by date descending and then by id descending. |
| Tracking.QuoteActionFromCode | tracking/models.py:49-53 | Only "wiki", "amazon" and "share" are quote-click actions, and each decodes to the choice that encodes it. |
| Tracking.ActiveFilter | tracking/views.py:21-25 | The active campaigns are exactly those with start date ≤ today ≤ end date. |
| Tracking.StartsNoEarlierIsTotalPreorder | tracking/models.py:20 | Latest start date first is a total preorder. |
| Tracking.ActiveCampaigns | tracking/views.py:19-27 | Returns exactly the campaigns active today, both ends inclusive, sorted by start date descending. |
| Tracking.TrackCampaignView | tracking/views.py:32-54 | 400 exactly when the campaign id or the client id is missing or empty. 404 exactly when no such campaign exists. Both leave the logs unchanged. Otherwise exactly one view row for that campaign and client is appended, with 201. |
| Tracking.TrackCampaignClick | tracking/views.py:59-83 | Same decision table as a campaign view. The action defaults to "official" and is stored unchecked, so the model's 201 row carries whatever action was sent. The database's column length limits are not modelled (see Left out). |
| Tracking.TrackQuoteView | tracking/views.py:88-112 | 400 exactly when the quote id or the client id is missing or empty. 404 exactly when no such quote exists. Otherwise exactly one view row is appended, with 201. |
| Tracking.TrackQuoteClick | tracking/views.py:117-149 | 400 exactly when the quote id, client id or action is missing or empty, or the action is not wiki/amazon/share. 404 for an unknown quote. Otherwise exactly one click row with that action is appended. |
| Tracking.StatsDate | tracking/views.py:156-167 | With no date parameter, today is used. Otherwise the result is the parse of the parameter, and a failed parse is the 400 case. |
| Tracking.TrackingKeepsReferences | tracking/models.py:28-44 | Every logging endpoint keeps each log row pointing at an existing quote or campaign. |
| Tracking.DeleteCampaign | tracking/models.py:75 | Deleting a campaign removes it and, by cascade, exactly its view and click rows. Quotes and quote logs are untouched. |
| Tracking.DeleteCampaignKeepsReferences | tracking/models.py:100 | After a campaign deletion every log row still points at an existing target. |
| Tracking.DeleteQuote | tracking/models.py:30 | Deleting a quote removes exactly that quote's row and exactly its view and click rows. Campaigns and campaign logs are untouched. |
| Tracking.DeleteQuoteKeepsReferences | tracking/models.py:55 | After a quote deletion every log row still points at an existing target. |
| Tracking.NewestFirst | tracking/models.py:35 | Log rows ordered by timestamp descending are a permutation of the rows, non-increasing in time. |
| AuthorMigration.SplitAuthor | quotes/migrations/0002_split_author_field.py:6-27 | An empty author is left untouched. Without any '/', the name is the author unchanged and the source is empty. With " / " present, the name is the stripped text before its first occurrence and the source the stripped text after it. Otherwise, with a '/', the split is the same at the first '/'. Both parts are then free of surrounding white space, and the name holds no " / " (or no '/' in the bare form). |
| AuthorMigration.SpacedSlashRoundTrip | quotes/migrations/0002_split_author_field.py:15-18 | Joining a clean, slash-free name and a clean source with " / " splits back into that name and that source. Separators inside the source stay there. |
| AuthorMigration.BareSlashRoundTrip | quotes/migrations/0002_split_author_field.py:19-22 | Joining a clean, slash-free name and a clean source with "/" splits back into the two parts, as long as no " / " appears. |
| AdminPreview.ShortText | quotes/admin.py:13-14 | Text of at most 40 characters is unchanged. Longer text becomes its first 40 characters plus "…" (41 characters). The result always starts with the first min(40, length) characters. |
| AdminPreview.ShortTextFixedPoints | quotes/admin.py:13-14 | The preview leaves a text unchanged exactly when it has at most 40 characters, or has 41 characters ending in "…". |
| AdminPreview.ShortTextIdempotent | quotes/admin.py:13-14 | Previewing a preview changes nothing. |
| Calendar.DaysInMonth | quotes/management/commands/generate_month_quotes.py:92 | February has 28 days, or 29 in a leap year; April, June, September and November have 30; the other months have 31. |
| MonthGenerator.OrFallback | quotes/management/commands/generate_month_quotes.py:84-86 | A missing or zero year or month argument falls back to the current one, and any other value is kept. |
| MonthGenerator.NewRow | quotes/management/commands/generate_month_quotes.py:192-207 | The created row takes its text, original text, author, source, original source and Wikipedia key from the accepted record and its date from the day. It has the generator's fixed fields (classic, drama tag, public domain, Aozora Bunko key, no image, 0 likes) exactly when its text and source are non-empty. |
| MonthGenerator.TryCandidates | quotes/management/commands/generate_month_quotes.py:119-176 | Uses at most the given number of attempts. It returns the first record whose stripped text and source are non-empty and, outside a dry run, whose text is new; no earlier attempt was acceptable. When it returns nothing, all attempts were used and none was acceptable. |
| MonthGenerator.GenerateMonth | quotes/management/commands/generate_month_quotes.py:77-218 | A missing API key or an out-of-range month or year fails before anything is created. Otherwise the old rows are kept as a prefix, and a dry run creates nothing. Each created row lies in the month and carries the fixed category, tags and counters. At most one row is created per day, in day order, never on an already-taken date, never with an existing text. `created_count` counts the new rows, and the run makes at most 5 fetches per day. The final table and fetch count are exactly those of `RunFrom`, the day-by-day fold of the loop over the whole month. |
| MonthGenerator.TakenDaySkipped | quotes/management/commands/generate_month_quotes.py:105-112 | Outside a dry run, a day that already has a quote adds no row and uses no fetch. |
| MonthGenerator.FreeDayTakesFirstAcceptable | quotes/management/commands/generate_month_quotes.py:119-209 | On a free day, when attempt `k` is the first of its five to read an acceptable record, the day gains exactly one row, built from that record and dated that day, and the next day starts after attempt `k`. |
| MonthGenerator.FreeDayWithoutRecord | quotes/management/commands/generate_month_quotes.py:119-184 | A free day none of whose five attempts is acceptable gains no row and uses all five fetches. |
| MonthGenerator.ProcessDay | quotes/management/commands/generate_month_quotes.py:105-209 | One pass of the day loop: a taken day is skipped outside a dry run, otherwise the attempts are spent and an accepted record's row is created outside a dry run. The step agrees with the fold's `DayStep`, and it reports a creation exactly when the table grew by one row. |
| MonthGenerator.RunMonth | quotes/management/commands/generate_month_quotes.py:100-209 | The day loop over the whole month ends with the table and fetch position of the fold `RunFrom`, and its creation count is the number of rows added. |
| MonthGenerator.DayStepKeepsRunInvariant | quotes/management/commands/generate_month_quotes.py:105-209 | One day keeps the run's facts: created rows have the generated shape and are dated in the month, in increasing order, on days no old row has, with texts no earlier row has. A day creates at most one row, none in a dry run, and spends at most five fetches. |
| MonthGenerator.RunFromKeepsRunInvariant | quotes/management/commands/generate_month_quotes.py:100-209 | The rest of the month, from any day, keeps the run's facts, creates nothing in a dry run, and spends at most five fetches a day. |
| MonthGenerator.RunOfMonth | quotes/management/commands/generate_month_quotes.py:100-209 | The table a whole month's fold ends with keeps the old rows first and satisfies every per-row promise of the command. A dry run leaves the table unchanged, and at most five fetches are spent per day of the month. |
| MonthGenerator.AppendKeepsRunInvariant | quotes/management/commands/generate_month_quotes.py:192-209 | Creating one accepted row for the current day keeps the per-day loop's invariant for the next day. |
| VersionCheck.ParseInt | frontend/src/versionCheck.js:11 | `parseInt` yields a number exactly when a digit follows the leading whitespace and an optional sign; otherwise NaN. |
| VersionCheck.ParseIntOfDecimal | frontend/src/versionCheck.js:11 | A decimal numeral, even followed by non-digits, parses back to its value. |
| VersionCheck.IsNewerVersion | frontend/src/versionCheck.js:10-21 | True exactly when some position, reading missing components as 0, has the remote component greater and every earlier position is equal. |
| VersionCheck.Components | frontend/src/versionCheck.js:11-12 | One parsed component per dot-separated piece, an empty piece reading as 0. |
| VersionCheck.NewerFromMeaning | frontend/src/versionCheck.js:13-20 | The loop answers true exactly when some position is the first decisive one and has the remote component greater. Missing components count as 0, and a NaN comparison decides nothing. |
| VersionCheck.IsNewerVersionIrreflexive | frontend/src/versionCheck.js:14-20 | No version is newer than itself. |
| VersionCheck.IsNewerVersionAsymmetric | frontend/src/versionCheck.js:14-20 | Two versions are never each newer than the other. |
| VersionCheck.TrailingZeroIsInvisible | frontend/src/versionCheck.js:13-16 | Appending ".0" to a version changes no comparison, so "1.0" and "1.0.0" compare equal. |
| VersionCheck.LexicographicWithoutNaN | frontend/src/versionCheck.js:14-19 | For all-numeric components, "newer" is the lexicographic order on the zero-padded components. |
| VersionCheck.CurrentVersion | frontend/src/versionCheck.js:5 | The current version is the configured one when that is non-empty, else "1.0.0", so it is never empty. |
| VersionCheck.LatestVersion | frontend/src/versionCheck.js:26-42 | A version comes out exactly when the lookup returned a payload with a non-empty `results` whose first entry has a non-empty `version`, and it is that version. A thrown request or an HTTP error gives none. |
| VersionCheck.CheckForUpdate | frontend/src/versionCheck.js:23-69 | The prompt appears exactly when the lookup returned a non-empty first version that is newer than the current one. The store opens exactly when the prompt appeared and was confirmed. |
| VersionCheck.PromptMeansStrictlyNewer | frontend/src/versionCheck.js:49-53 | When the prompt appears, the remote version differs from the current one and the current one is not newer. |
| Notifications.Clamp | frontend/src/notifications.js:12-13 | The clamped value lies in [0, hi]. NaN gives 0, a value in range is kept, a value above gives hi and one below gives 0. `Infinity` gives hi and `-Infinity` gives 0. |
| Notifications.SavedTime | frontend/src/notifications.js:9-15 | The hour lies in [0, 23] and the minute in [0, 59]. A missing key gives 9 and 0. A non-numeric stored value gives 0. A stored number already in range is kept as is. |
| Notifications.SavedTimeDefault | frontend/src/notifications.js:10-11 | With nothing stored the saved time is 09:00. |
| Notifications.SavedTimeRoundTrip | frontend/src/notifications.js:9-15 | An in-range hour and minute stored as decimal strings are read back unchanged. |
| Notifications.NonNumericReadsAsZero | frontend/src/notifications.js:12 | A stored hour of "abc" reads as 0. |
| Notifications.ToNumberOfDecimal | frontend/src/notifications.js:10 | `Number` reads a decimal numeral as its value. |
| Numerals.TwoDigits | frontend/src/daily.js:12 | `padStart(2, "0")` of a number below 100 gives two digits that read back as the number. |
| Daily.FormatDateLocal | frontend/src/daily.js:8-16 | The stamp is the year, '-', the 1-based month as two digits, '-', and the day as two digits. |
| Daily.StampRoundTrip | frontend/src/daily.js:8-16 | A stamp reads back to the date it was formatted from. |
| Daily.FormatDateLocalInjective | frontend/src/daily.js:8-16 | Different local dates give different stamps. |
| Daily.StampCacheKeyIsNotToday | frontend/src/api.js:112 | The per-date cache key of a stamp never equals the key of today's cached quote. |
| Daily.StampDay | frontend/src/daily.js:34-44 | The day changed exactly when the stored stamp is not today's. Afterwards the stamp is today's, written only when it changed. Rescheduling happens exactly when the day changed and the flag is "true". |
| Daily.RefreshDailyState | frontend/src/daily.js:22-47 | The day changed exactly when the stored stamp differs from today's stamp, a missing one included. Afterwards the stored stamp is today's. Rescheduling happens exactly when the day changed and notifications are "true". A quote is returned exactly when the fetch returned, and it is the fetch's data. |
| Daily.FetchKeepsDailyKeys | frontend/src/api.js:42-81 | Fetching today's quote never touches the day stamp or the notification flag. |
| Daily.FailedFetchStillStamps | frontend/src/daily.js:27-35 | A failed fetch with nothing cached gives no quote but still writes today's stamp. |
| Daily.SecondRefreshSameDay | frontend/src/daily.js:22-25 | A second refresh on the same day reports no day change and reschedules nothing. |
| ApiClient.GetClientId | frontend/src/api.js:8-19 | A stored non-empty id is returned and storage is unchanged. Otherwise the generated id is stored and returned. Either way the result is non-empty, is the stored id, and no other key changes. |
| ApiClient.GetClientIdIsStable | frontend/src/api.js:8-19 | A second call returns the same id and changes nothing, whatever id it would generate. |
| ApiClient.WithAuth | frontend/src/api.js:33-39 | A stored token adds `Authorization: Token <t>`; without one the headers are unchanged. |
| ApiClient.AuthorizationIffToken | frontend/src/api.js:33-39 | The Authorization header is present exactly when a token is stored. |
| ApiClient.Identify | frontend/src/api.js:44-47 | `client_id` is sent exactly when no token is stored, and it is then the stored or newly stored client id. |
| ApiClient.AnonymousRequestsShareTheId | frontend/src/api.js:44-47 | Two anonymous requests in a row send the same `client_id`. |
| ApiClient.FetchWithCache | frontend/src/api.js:52-80 | On success the data is returned and its cache entry written. On failure storage is unchanged, and the cached data is returned when present and decodable, otherwise the original error is rethrown. |
| ApiClient.OfflineServesLastResponse | frontend/src/api.js:54-79 | After a successful fetch, a later failed fetch returns the same data from the cache. |
| ApiClient.TodayEntryDate | frontend/src/api.js:61 | The cached date is `publish_date` when that is non-empty. Otherwise it is the part of the current ISO time before its first 'T'. |
| ApiClient.FetchTodayQuote | frontend/src/api.js:42-81 | The request carries `client_id` only when anonymous and the Authorization header only with a token. Success caches the data under the today key, with a date taken from `publish_date`. On a failure, a truthy cached entry that parses yields its data. A failure with nothing cached, or with an entry that does not parse, rethrows the original error. A failure writes nothing beyond the client id. A success writes exactly the today entry on top of that. |
| ApiClient.FetchQuoteByDate | frontend/src/api.js:104-143 | Same as today's fetch, with the `date` parameter sent and the entry cached under the key derived from the date string. Apart from the client id, a success writes only that entry and a failure writes nothing. |
| ApiClient.DateCacheKeyInjective | frontend/src/api.js:112 | Different date strings use different cache keys. |
| ApiClient.DateCacheKeyIsNotClientIdKey | frontend/src/api.js:112 | No per-date cache entry can overwrite the stored client id. |
| ApiClient.ToggleFavoriteRequest | frontend/src/api.js:84-101 | The POST goes to `/quotes/<quoteId>/toggle-favorite/`. The body carries `client_id` exactly when anonymous, and then it is the id `getClientId` returned, and it always carries the given `is_campaign`. The storage afterwards is `getClientId`'s. |
| ApiClient.AnonymousToggleUsesStoredId | frontend/src/api.js:87-89 | An anonymous toggle sends the stored id in the body, and the backend takes the body's id as the client. |
| ApiClient.ToggleFavoriteResult | frontend/src/api.js:92-100 | A toggle's failure is swallowed: the caller gets data exactly when the request succeeded, and that data is the server's. |
| ApiClient.FetchFavoritesRequest | frontend/src/api.js:146-154 | The favorites request carries `client_id` exactly when anonymous and the Authorization header exactly with a token. Its parameters and the storage afterwards are those of the client-id step: the stored or freshly stored id, and nothing else written. |
| UserStore.IsAuthenticated | frontend/src/stores/user.js:8 | Authenticated exactly when a token is held and it is not the empty string. |
| UserStore.IsPremium | frontend/src/stores/user.js:7 | Premium exactly when a current user exists and is premium; no user means not premium. |
| UserStore.FetchMe | frontend/src/stores/user.js:35-53 | Without a token it throws before any request and changes nothing. With one, the request is sent, and a success stores and returns the user. |
| UserStore.Logout | frontend/src/stores/user.js:141-147 | Clears the token, the user and both storage keys, and leaves every other key alone. |
| UserStore.LogoutIdempotent | frontend/src/stores/user.js:141-147 | Logging out twice is logging out once. |
| UserStore.RestoreAuth | frontend/src/stores/user.js:15-30 | No stored token returns false and changes nothing. A failing `fetchMe` logs out and returns false. A successful one returns true, authenticated with the fetched user. |
| UserStore.SignIn | frontend/src/stores/user.js:127-135 | A successful sign-in sets the token and user and stores `auth_token` and `user_id`, touching no other key. A failed one changes nothing. |
| UserStore.SignInWithApple | frontend/src/stores/user.js:58-106 | Off native it is the demo sign-in. On native a failed authorization changes nothing, and a granted one is the ordinary sign-in. |
| UserStore.SignInThenRestore | frontend/src/stores/user.js:15-30 | After signing in, restoring with a working `/me` is authenticated as the fetched user. |
| UserStore.LogoutThenRestore | frontend/src/stores/user.js:15-17 | After a logout, restoring returns false and changes nothing. |
| UserStore.VerifySubscription | frontend/src/stores/user.js:152-174 | Without a token it throws before any request. With one, the request is sent. A success returns the server's user and makes it the current user. A failure changes nothing. |

## Left out

- The toggle's concurrency: `transaction.atomic` and the `F()` updates are one atomic state transition here, and no interleavings are modelled.
- ORM details: `select_related`, `refresh_from_db` and query plans. Tables are sequences of rows.
- `order_by("?")` in today's quote: the random pick is an index parameter.
- `random.choice` of playwright in the generator: it is folded into each fetched record.
- MonthGenerator.Candidate: every record field is a string. In the source, a JSON `null` (or any non-string) for one of the five text fields makes `.strip()` raise outside the attempt's `try`, which aborts the command after the earlier days' rows were committed. That crash is not modelled.
- The OpenAI request, JSON decoding of its answer, `time.sleep`, stdout styling and the swallowed database exceptions of `generate_month_quotes`: each attempt's result is an input.
- A pk that does not parse as an integer, and JSON fields of the wrong type: these become Django's own 500 or 400 responses outside the views' logic. Ids are `nat` or `Option<int>`.
- Column length limits of `CharField`s: the tracking `client_id` (100 characters, tracking/models.py:31), the favorite's `client_id` (64, quotes/models.py:79) and the click `action` (20, tracking/models.py:102). On PostgreSQL an over-long value makes the insert fail, and the view answers 500 instead of 201. The model's rows accept strings of any length.
- `date.fromisoformat` and `date.today()`/`timezone.localdate()`: the parser and today's date are parameters.
- The ranges of Python's `calendar` and `date`: years are checked against 1..9999 as `date` requires. Exotic calendar behaviour outside that range is not modelled.
- The CTR percentages and per-day datetime ranges of `stats_overview`, which rely on floats and the clock. Only its date validation is modelled.
- Serializers, urls, settings, router, constants and the admin registration boilerplate, which are projections or configuration.
- `MeView`, `SubscriptionVerifyView` and `AppleSignInView`: these views are not part of this model. Their answers are network outcomes.
- StoreKit, in-app purchases, AdMob and the notification scheduling calls (`scheduleDailyNotification`, permission requests, `showTestNotification`): these are SDK wrappers. Rescheduling is a boolean in `Daily`.
- The Wikipedia lookup and the tracking POSTs of `api.js`: these are plain network calls with no client logic beyond the request shape.
- Campaign override of today's quote, account-based favorites and campaign likes: the code does not implement them. The backend toggle ignores `is_campaign`.
- `like_count` is a `PositiveIntegerField` (quotes/models.py:51), so the database caps it at the column's 32-bit maximum. The model's counter is an unbounded `nat`. Reaching the cap would take 2^31 favorite rows for one quote.
- `created_at` timestamps of favorites are not stored. Favorites are kept in insertion order, so "newest first" is the reverse order, assuming timestamps increase with insertion.
- `Quote` fields: `models.py` still declares the single `author` field while migration 0002 and the generator use `author_name`/`source`. `QuoteModels` follows `models.py`, and the generator's rows use the post-migration field set.
- `JSON.stringify`/`JSON.parse` for the frontend cache are codec parameters. A round trip is a lemma hypothesis where needed.
- Notifications.ToNumber: `Number()` reads decimal numerals with an optional sign, one '.', and "Infinity". Exponents and hex/octal/binary literals read as NaN instead of their value.
- VersionCheck.ParseInt: components are unbounded integers, without the rounding `parseInt` applies beyond 2^53.
- ApiClient.GetClientId: requires the generated id to be non-empty. `randomUUID` and the `"mm-"` fallback never produce an empty string.
- Daily.FormatDateLocal: takes the local date fields as input. `new Date()` and the time zone are not modelled.

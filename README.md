# katsu-Map admin console: upload client and list helpers, in Dafny

This project models the restaurant-recommendation admin console's image
upload client and the pure list helpers on three of its admin pages, and
proves properties of the model:

- `gcs.dfy` (module `Gcs`) is `src/api/gcs.js`. Compression covers the
  1920-pixel resize and the rename to `.jpg`. The private key arrives with
  `\n` escapes and is unescaped once. The access-token cache is the class
  `GcsClient`: its fields `cachedToken` and `tokenExpiry` are refreshed
  through a JWT-bearer assertion (section 2.1 of RFC 7523). The upload
  builds the object key and the public URL, and maps failures to errors.
  The pure function `TokenStep` specifies one `getAccessToken` call.
  The methods `GetAccessToken` and `UploadImage` update the cache in place
  and are proved against `TokenStep` and `Compress`.
- `restaurants.dfy` (module `Restaurants`) is the catalogue page: levels
  and badges, the search and level filter, and 20-row pagination.
- `users.dfy` (module `Users`) is the users page: the nickname-or-id search,
  the "most recently accessed first" ordering, and the missing-date case of
  `formatDate`.
- `dashboard.dfy` (module `Dashboard`) is the daily-users series: today's
  point is added when it is absent.
- `wrappers.dfy`, `strings.dfy` and `sequences.dfy` give JavaScript's
  `null`, `includes`, `toString`, `substring`, `filter` and `slice` their
  JavaScript meaning.
- `integers.dfy` (module `Integers`) holds `Abs`, `Min`, `Max` and `Clamp`,
  shared by the other modules.

Inputs the program takes from outside are parameters. These are the clock
(`Date.now()`), the base-36 text of `Math.random()`, and the decoded image
size. So are the JPEG encoder, the signer (`importPKCS8` and `SignJWT`),
`encodeURIComponent`, the token and storage endpoints, the locale date
formatter and the case folding of `toLowerCase`. Each method also returns
the HTTP requests it sent, in order. That makes "no request was made" a
checkable statement.

The cache test is strict (`tokenExpiry > now + 60`): at exactly 60 seconds
left the cached token is refreshed, not reused (`Gcs.ReuseWindow`).

## Model

| member | source | states |
|---|---|---|
| `Gcs.RoundDiv` | src/api/gcs.js:24-25 | `Math.round(n / d)` in exact arithmetic: the nearest integer, halves rounded up |
| `Gcs.RoundedAtMost` | src/api/gcs.js:24-25 | a rounded quotient never exceeds an integer bound of the exact quotient |
| `Gcs.RoundedAtLeast` | src/api/gcs.js:24-25 | a rounded quotient is never below an integer bound under the exact quotient |
| `Gcs.ScaleRatio` | src/api/gcs.js:23 | the ratio is at most `1920/width` and at most `1920/height`, and equals one of them, so it is their minimum (a zero side counts as infinite) |
| `Gcs.Resize` | src/api/gcs.js:19-26 | a size within 1920x1920 is kept exactly; otherwise neither side exceeds 1920, one side is exactly 1920, and each side is `Math.round(side * ratio)` |
| `Gcs.ResizeLongerSide` | src/api/gcs.js:22-25 | an oversized image's longer side (either side when they are equal) becomes exactly 1920 |
| `Gcs.ResizeKeepsAspect` | src/api/gcs.js:22-25 | after a resize, the cross products of old and new sides differ by at most half the longer old side (aspect kept up to rounding) |
| `Gcs.ResizeFourK` | src/api/gcs.js:22-25 | 3840x2160 is drawn at 1920x1080 |
| `Gcs.ResizeThinImage` | src/api/gcs.js:24-25 | 4000x1 becomes 1920x0, so side positivity is not promised |
| `Gcs.LastDot` | src/api/gcs.js:39 | the index of the last `.`, or -1, with no `.` after it |
| `Gcs.ExtensionFollowsLastDot` | src/api/gcs.js:39 | a `.` followed by a non-empty run without `/` or `.` is the last dot |
| `Gcs.StripExtension` | src/api/gcs.js:39 | when the name ends in `.ext` (ext non-empty, no `/` or `.`), the result is the name before that dot; otherwise the name is unchanged |
| `Gcs.JpegName` | src/api/gcs.js:39-40 | the compressed file's name ends in `.jpg`, preceded by the stripped name |
| `Gcs.JpegNameDoubleExtension` | src/api/gcs.js:39-40 | `a.tar.gz` becomes `a.tar.jpg` |
| `Gcs.JpegNameNoExtension` | src/api/gcs.js:39-40 | `photo` becomes `photo.jpg` |
| `Gcs.JpegNameTrailingDot` | src/api/gcs.js:39-40 | `file.` becomes `file..jpg` |
| `Gcs.Compress` | src/api/gcs.js:11-60 | a load error is rejected as such; a null blob is rejected as a compression failure; otherwise the file is `image/jpeg`, named by `JpegName`, and holds what the encoder produced at the resized size and quality 0.85 |
| `Gcs.UnescapeNewlines` | src/api/gcs.js:62 | unescaping never lengthens the key |
| `Gcs.UnescapeWithoutEscapes` | src/api/gcs.js:62 | a key with no backslash-n pair is left unchanged |
| `Gcs.UnescapeAppend` | src/api/gcs.js:62 | no escape straddles a boundary that is not followed by `n`: the two sides are unescaped independently |
| `Gcs.UnescapeAroundChar` | src/api/gcs.js:62 | any character other than a backslash or `n` is kept, and the text on either side of it is unescaped independently, so raw newlines and every other character survive in keys that also hold escapes |
| `Gcs.UnescapeEscape` | src/api/gcs.js:62 | writing newlines as backslash-n and then unescaping gives the text back (for text without a literal backslash-n) |
| `Gcs.UnescapeLeavesNoEscapes` | src/api/gcs.js:62 | after unescaping, no backslash-n pair remains |
| `Gcs.UnescapeIdempotent` | src/api/gcs.js:62 | unescaping twice is the same as once |
| `Gcs.UploadError.Message` | src/api/gcs.js:98-134 | the token-failure and upload-failure messages contain the response body; a signing failure carries the signer's reason |
| `Gcs.AssertionFor` | src/api/gcs.js:78-87 | issuer and subject are the client email, audience is the token endpoint, `iat = now`, `exp = iat + 3600`, header RS256/JWT, storage read-write scope |
| `Gcs.TokenUsable` | src/api/gcs.js:72 | a cached token is usable exactly when it is a non-empty string and more than 60 seconds of its lifetime remain |
| `Gcs.TokenStep` | src/api/gcs.js:68-108 | no exchange and a success happen exactly when a non-empty token is cached with `tokenExpiry > now + 60`, and then the cached token is returned. Any failure leaves the cache unchanged. A success returns what is cached. At most one JWT-bearer exchange is sent: a form-encoded POST to the token endpoint of the assertion signed for this account and time. An OK answer sets the token and `now + expires_in`; a non-OK answer fails with the body |
| `Gcs.ReuseWindow` | src/api/gcs.js:72-74 | a token cached at `t0` for `ttl` seconds is reused at `t0 + x` exactly when `x < ttl - 60` |
| `Gcs.RefreshedTokenIsReused` | src/api/gcs.js:69-107 | a token just obtained is returned again, without an exchange and with the cache unchanged, by a later call while more than 60 seconds of it remain |
| `Gcs.RandomSuffix` | src/api/gcs.js:118 | `substring(2, 8)` is at most 6 characters, exactly characters 2 to 7 of a long enough numeral |
| `Gcs.ObjectKey` | src/api/gcs.js:118 | the name is `restaurants/`, the timestamp's decimal text, `_`, the suffix and `.jpg`, each at its position |
| `Gcs.ObjectKeyInjective` | src/api/gcs.js:118 | `restaurants/<millis>_<suffix>.jpg` determines both the timestamp and the suffix |
| `Gcs.UploadUrl` | src/api/gcs.js:120 | the media-upload address is the bucket's upload path, then `/o?uploadType=media&name=`, then the encoded object name, each at its position |
| `Gcs.ObjectUpload` | src/api/gcs.js:122-129 | the POST goes to `UploadUrl` of the encoded name, with `Bearer <token>` as authorization and the JPEG's type and bytes |
| `Gcs.PublicUrl` | src/api/gcs.js:139 | the public address is `https://storage.googleapis.com/<bucket>/` followed by the stored name |
| `Gcs.PublicUrlInjective` | src/api/gcs.js:139 | distinct objects of a bucket get distinct public addresses |
| `Gcs.GcsClient.constructor` | src/api/gcs.js:61-65 | the key is stored unescaped; the cache starts empty with expiry 0 |
| `Gcs.GcsClient.GetAccessToken` | src/api/gcs.js:68-108 | the returned value, the requests sent and the new cache are those of `TokenStep` at `floor(Date.now() / 1000)` |
| `Gcs.GcsClient.UploadImage` | src/api/gcs.js:111-140 | a compression failure is returned before any request, with the cache unchanged. A token failure is returned as such. Otherwise one authorized POST of the JPEG under `ObjectKey(millis, suffix)` follows the token requests. A non-OK answer fails with its body; an OK one gives exactly `https://storage.googleapis.com/<bucket>/<name>` |
| `Restaurants.RecommendLevel` | src/pages/RestaurantsPage.jsx:39-44 | `top5` iff `isTop5`; `best` iff `isBest` and not `isTop5`; `good` iff `isGood` and neither earlier flag; `none` otherwise |
| `Restaurants.RecommendClass` | src/pages/RestaurantsPage.jsx:53-58 | the badge class is the level's code, except `''` for `none` |
| `Restaurants.RecommendLabel` | src/pages/RestaurantsPage.jsx:46-51 | the badge text of each level: `서울 5대 돈가스`, `강추`, `꽤 괜찮`, or `-` for none |
| `Restaurants.LabelMatchesLevel` | src/pages/RestaurantsPage.jsx:46-51 | two restaurants get the same label exactly when they have the same level |
| `Restaurants.FilterRestaurants` | src/pages/RestaurantsPage.jsx:60-66 | the result is an order-preserving subsequence of the catalogue. A restaurant is kept exactly when its name or area contains the term (case-folded) and it has the chosen level or the filter is `all`, and a kept restaurant appears as many times as in the catalogue |
| `Restaurants.FilterNothing` | src/pages/RestaurantsPage.jsx:60-66 | an empty term with filter `all` lists the catalogue unchanged |
| `Restaurants.TotalPages` | src/pages/RestaurantsPage.jsx:69-70 | `ceil(n / 20)`: `n <= 20 * pages`, `20 * (pages - 1) < n` when `n > 0`, and zero pages exactly for zero rows |
| `Restaurants.Page` | src/pages/RestaurantsPage.jsx:71-74 | a page holds at most 20 rows; page `p >= 1` is rows `20(p-1)` to `20p`, cut at the end |
| `Restaurants.PageZeroIsEmpty` | src/pages/RestaurantsPage.jsx:71-74 | page 0 (`slice(-20, 0)`) is empty |
| `Restaurants.PagesArePrefix` | src/pages/RestaurantsPage.jsx:71-74 | pages 1 to `k` in order are the first `20k` rows |
| `Restaurants.PagesReassemble` | src/pages/RestaurantsPage.jsx:69-74 | pages 1 to `totalPages` in order reproduce the filtered list exactly |
| `Restaurants.PreviousPage` | src/pages/RestaurantsPage.jsx:182 | "previous" gives `max(1, p - 1)`: at least both, and equal to one of them |
| `Restaurants.NextPage` | src/pages/RestaurantsPage.jsx:192 | "next" gives `min(totalPages, p + 1)`: at most both, and equal to one of them |
| `Restaurants.NavigationStaysInRange` | src/pages/RestaurantsPage.jsx:181-197 | from a page in `[1, totalPages]`, both buttons stay in that range |
| `Restaurants.NextWithoutPages` | src/pages/RestaurantsPage.jsx:192-193 | with nothing listed, "next" from page 1 goes to page 0, whose slice is empty |
| `Users.FormatDate` | src/pages/UsersPage.jsx:27-37 | a missing or empty date is shown as `-`; any other is handed to the locale formatter |
| `Users.CompareOrder` | src/pages/UsersPage.jsx:45-51 | the comparator puts `a` strictly first exactly when `a` has an access time and `b` has none or an earlier one, and ties exactly when the two times agree (both missing or equal) |
| `Users.CompareAntisymmetric` | src/pages/UsersPage.jsx:45-51 | swapping the comparator's arguments negates it |
| `Users.CompareTransitive` | src/pages/UsersPage.jsx:45-51 | "goes no later than" is transitive, so the comparator is a consistent ordering |
| `Users.Insert` | src/pages/UsersPage.jsx:45-51 | inserting into a sorted list keeps it sorted and adds exactly that user |
| `Users.SortByAccess` | src/pages/UsersPage.jsx:45-51 | the sort's output is in comparator order and is a permutation of its input |
| `Users.NeverAccessedLast` | src/pages/UsersPage.jsx:47-49 | in sorted order, every user with `lastAccessedAt` precedes every user without |
| `Users.MostRecentFirst` | src/pages/UsersPage.jsx:50 | among users with `lastAccessedAt`, timestamps are non-increasing |
| `Users.SearchFilter` | src/pages/UsersPage.jsx:40-44 | the callback keeps a user exactly when the case-folded term occurs at some index of the case-folded nickname (null as `''`), or the term occurs at some index of the id's decimal text |
| `Users.FilteredUsers` | src/pages/UsersPage.jsx:39-51 | the list is sorted; it holds only matching input users and every matching one; it is a permutation of the filtered list |
| `Users.EmptySearchKeepsEveryone` | src/pages/UsersPage.jsx:39-44 | an empty search lists every user (as a permutation) |
| `Dashboard.DatePart` | src/pages/DashboardPage.jsx:45 | `split('T')[0]` is the prefix before the first `T` |
| `Dashboard.DatePartOfTimestamp` | src/pages/DashboardPage.jsx:45 | the timestamp `<date>T<time>` gives back `<date>` |
| `Dashboard.Find` | src/pages/DashboardPage.jsx:48 | `find` yields nothing exactly when no point has that date, and otherwise the first point of the series with that date |
| `Dashboard.ChartData` | src/pages/DashboardPage.jsx:41-53 | today is the date part of the current ISO timestamp. No stats gives `[]`. Otherwise `last30Days` (absent as `[]`) is kept as a prefix. It comes back unchanged if today is present; otherwise `{today, todayDau or 0}` is appended. Today is always in the series |
| `Dashboard.NoHistoryGivesToday` | src/pages/DashboardPage.jsx:44-50 | without `last30Days`, the series is today's point alone |
| `Dashboard.ChartDataIdempotent` | src/pages/DashboardPage.jsx:47-50 | building the series from an already-built series adds nothing |
| `Strings.ContainsIff` | src/pages/RestaurantsPage.jsx:61-62 | `includes` holds exactly when the term occurs at some index |
| `Strings.NatToString` | src/pages/UsersPage.jsx:43 | the decimal text of a number is non-empty, all digits, and starts with `0` only for 0 itself, which is `"0"` |
| `Strings.IntToString` | src/pages/UsersPage.jsx:43 | the decimal text of an integer is non-empty, starts with `-` exactly for negative numbers, and continues with the numeral of the absolute value |
| `Strings.IntToStringInjective` | src/pages/UsersPage.jsx:43 | different ids have different decimal texts |
| `Strings.ParseNatToString` | src/pages/UsersPage.jsx:43 | reading back the decimal text of a number gives the number |
| `Strings.Substring` | src/api/gcs.js:118 | `substring` is no longer than the distance between its indices, and is the plain slice for in-range indices |
| `Sequences.FilterIsSubsequence` | src/pages/RestaurantsPage.jsx:60 | `filter` keeps an order-preserving subsequence holding every element that passes |
| `Sequences.FilterCounts` | src/pages/RestaurantsPage.jsx:60 | `filter` keeps each passing element exactly as often as it occurs, and no failing one |
| `Sequences.Slice` | src/pages/RestaurantsPage.jsx:71-74 | for indices `0 <= begin <= end`, `slice` is the rows from `begin` to `end`, both cut at the length; it is empty when the end is not past the start |
| `Sequences.SliceFromEnd` | src/pages/RestaurantsPage.jsx:71-74 | a negative index counts back from the end of the list, stopping at 0 |

## Left out

- HTTP: `fetch` to the token and storage endpoints is modelled as function parameters from request to response. Network rejections, and `response.json()` failing on a body that is not JSON, are not modelled.
- Cryptography: importing the PKCS#8 key and RS256 signing are a `Signer` parameter that either returns a JWT or fails with a reason.
- `encodeURIComponent` for the object name in the upload URL is a parameter.
- Browser image pipeline: decoding, object URLs, canvas drawing and `toBlob` are covered only by the `ImageLoad` input and an encoder parameter. The encoder receives the resized size and quality 0.85. JavaScript's floating-point ratio is modelled in exact rational arithmetic.
- Randomness and time: `Date.now()` and `Math.random().toString(36)` are parameters. The 36^6 collision bound is probabilistic and not modelled. `Gcs.ObjectKeyInjective` states instead that distinct timestamps or suffixes never collide.
- Gcs.GcsClient.UploadImage: the timestamp in the object key is a natural number; a clock before 1970 is not modelled.
- Concurrency: concurrent `getAccessToken` calls racing on the cache are not modelled; every call runs to completion before the next.
- `src/api/gcs.js` always re-encodes the upload to JPEG; there is no pass-through path, so there is none in the model.
- `toLowerCase` is a per-character folding parameter. Unicode mappings that change a string's length are not modelled.
- `toLocaleDateString` is a parameter of `Users.FormatDate`.
- Users.SortByAccess: the model's insertion sort is stable, but the contract does not state stability. Timestamps are integers, so dates that fail to parse (comparisons with `NaN`) are not modelled.
- The copy of `last30Days` in `chartData`: Dafny sequences are values, so the caller's array cannot change. `Dashboard.ChartData` states that the input series is kept as a prefix.
- UI and routing: React state and effects, the reset to page 1 when the search or filter changes, rendering, `alert`/`confirm`, and loading the lists through the REST client. This also covers `src/App.jsx`, `src/pages/LoginPage.jsx`, `src/pages/NoticesPage.jsx`, `src/pages/MessagesPage.jsx` and the chart component, which are not part of this model.

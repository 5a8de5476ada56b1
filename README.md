# FitLife AI — a Dafny model of the client-side logic

FitLife AI is a React health and fitness tracker. Most of its screens call a remote
REST backend. What the browser does on its own is modelled here, with proofs:

- the obfuscated local cache (`cacheService`);
- the input sanitisers and validators and the error-tolerant storage wrapper (`helpers.js`);
- the session held by `AuthProvider`;
- the calendar grid;
- the routine form of the Fitness page;
- the record search of the Health page;
- the sign-in form checks;
- the routing tables of the app shell and the bottom navigation bar.

Modules and what they hold:

- `Wrappers`, `Text`, `Sequences`: an `Option` type, the string helpers, and the order-preserving `filter` and first-match `find` shared by the rest.
  The helpers cover digits, `String(n)`, `trim`, ASCII `toLowerCase` and `includes`.
- `Json`: `JSON.stringify` and `JSON.parse` written out.
  - Values are `null`, booleans, integers, strings, arrays and objects with ordered fields.
  - A JavaScript object never has two properties with one key. `WellFormed` says this of a `Json` value and everything inside it. Operations on values the application hands over (`login`, `updateUser`) require it.
  - `JSON.parse` builds an object by assigning its members in order. So a repeated key, as in `{"a":1,"a":2}`, keeps its first place and its last value, and what `Parse` gives is always `WellFormed`.
  - `Parse(Stringify(v)) == Some(v)` is proved for every `WellFormed` value.
  - `JsValue` adds the two other outcomes of `JSON.stringify`: `undefined`, which gives no text, and a value it throws on.
- `Uri`: `encodeURIComponent` and `decodeURIComponent` over UTF-8 octets.
  - The round trip is proved.
  - The escaped output is proved to be ASCII.
- `Base64`: `btoa` and the forgiving `atob` of the HTML standard, with the Base64 alphabet of section 4 of RFC 4648.
  - `btoa` fails on characters above U+00FF.
  - `atob` strips ASCII white space. When the length is then a multiple of 4, it drops one or two trailing `=` (so `QQ==` decodes and `QQ=` fails). It fails on a remaining length of 1 mod 4 or on a character outside the alphabet.
  - `atob(btoa(s)) == s` is proved.
- `BrowserStorage`: `localStorage` as a class whose `items` field is a `map<string, string>`.
  - Every call throws when the browser blocks storage (`available` is false).
  - `setItem` also throws when the new contents exceed the browser's quota (`withinQuota`).
  - A call that throws leaves the store as it was; each method reports whether it threw.
- `Cache`: `encrypt` is `btoa(encodeURIComponent(SALT + JSON.stringify(d)))`; `decrypt` inverts it and checks the salt. The class `CacheService` provides `set`/`get`/`remove`/`clear` over the store under the prefix `fitlife_secure_`. Its methods catch nothing: a storage call that throws escapes, which each method reports as `threw`.
- `Helpers`:
  - `sanitizeString`, `sanitizeSQL`, `sanitizeNumber`;
  - the email, phone and UUID patterns, each proved equal to a plain statement of its rules;
  - `formatRelativeTime`, with the current time as a parameter;
  - the `storage` wrapper, as a class `SafeStorage`.
- `AuthContext`:
  - the initial load of `fitlife-user`, which removes a corrupt entry;
  - `login`, `logout` and `updateUser` (object spread written out), including a write that throws;
  - the invariant that the stored text loads as the user held in memory, kept by every write that succeeds.
- `Calendar`:
  - Gregorian month lengths and weekdays, computed as JavaScript's `Date` does;
  - the padded `YYYY-MM-DD` string;
  - `generateCalendarDays` as a method, whose two loops are the method `FillCells`;
  - the cell click;
  - the event type table.
- `Fitness`:
  - `parseInt` as the reps and sets inputs use it;
  - exercises as objects, which `updateExercise` mutates in place;
  - the routine form's add, remove, edit and reset.
- `Health`:
  - the search filter, with a query that is empty after sanitising restoring every record;
  - the reset of the filtered list;
  - the 0 to 500 submit guard;
  - the ten-record cap and the type table with its fallback.
- `AuthPage`: the ordered checks of the sign-in and sign-up form, the state after a submit, and the mode toggle.
- `App`:
  - page id ↔ path (round trip in both directions);
  - the route table, matched as the router does (any ASCII case, trailing slashes ignored), and the sidebar entries;
  - the keyboard shortcuts and their focus guard;
  - `ProtectedRoute`.
- `BottomNav`: the item table, the item highlighted for a path, and the effect of a tap.

Behaviours of the code as written that the model keeps:

- `login(null)` signs out in memory but leaves the entry `"null"` in storage, where `logout` removes it. So the entry is not always absent when the user is `null`. What holds of every operation is that the entry loads as the user held in memory (`AuthProvider.Valid`). `LoginNullKeepsEntry` states the exception.
- `sanitizeString` removes `javascript:` and `on…=` patterns in one left-to-right pass each. Text that is left behind can therefore form a new match; for example, `javajavascript:script:` becomes `javascript:`. The model keeps this single pass. Only the characters `< > " ' \`` are guaranteed to be gone.
- `encrypt(undefined)` is not `null`: the salted text is `fitlife_salt_v1_undefined`. It then decrypts to `null`, because `undefined` is not JSON.
- `startEdit` puts the routine's own exercise objects into the form. `updateExercise` then writes into those objects, so the routine being edited changes too. The model keeps this aliasing: `Exercise` is a class.
- `mobile.length` counts UTF-16 code units. Five characters above U+FFFF therefore pass the ten-character test (`MobileCountsCodeUnits`).
- The sign-in toggle is disabled while loading, so `Toggle` requires that nothing is loading.
- `login` calls `setUser` before `setItem`. When the write throws (a full quota), the new user is held in memory while the entry still loads as the previous user (`AuthProvider.Login`). A write that throws inside the `updateUser` updater throws again when the provider renders, and React unmounts it. The model records this as `mounted` becoming false, with the user and the store unchanged.
- `cacheService.set`, `get`, `remove` and `clear` catch nothing. A storage call that throws escapes to their caller, unlike the `storage` wrapper of `helpers.js`, which returns the default or `false`.
- `startEdit` keeps an empty exercise list: `routine.exercises || [...]` replaces only a missing list, so a routine saved with `exercises: []` opens a form with no exercise at all. The form's other operations keep at least one exercise (`RoutineForm.RemoveExercise`); this one does not (`RoutineForm.StartEdit`).
- The router matches `/Health` and `/health/` to the Health screen (`App.RouteMatches`). The sidebar and the bottom bar compare `location.pathname` exactly, so on such a path no entry is highlighted.

## Model

| member | source | states |
|---|---|---|
| Json.ParseStringify | src/services/cacheService.js:17 | parsing the text `JSON.stringify` gives yields the same value, for every JSON value whose objects have distinct keys (every JavaScript value) |
| Json.StringifyJs | src/services/cacheService.js:17 | `JSON.stringify` gives text exactly for a JSON value; no text for `undefined`; a throw otherwise |
| Json.Stringify | src/services/cacheService.js:17 | the text of a JSON value is non-empty and starts with a character that can begin a value |
| Json.Parse | src/services/cacheService.js:39 | `JSON.parse` of canonical text, objects built by assigning members in order; `Json.ParseStringify` states its round trip |
| Json.ParseRepeatedKey | src/contexts/AuthContext.jsx:23 | `JSON.parse('{"a":1,"a":2}')` has the single property `a` with value 2 |
| Json.ParseObjectText | src/contexts/AuthContext.jsx:23 | the text of any object, with repeated keys or not, parses as its members assigned in order |
| Json.ParseWellFormed | src/contexts/AuthContext.jsx:23 | every value `JSON.parse` gives has distinct keys in every object |
| Json.SpreadFresh | src/contexts/AuthContext.jsx:45 | assigning properties whose keys are distinct and new appends them in order |
| Json.SpreadWellFormed | src/contexts/AuthContext.jsx:45 | assigning properties in order keeps the keys distinct |
| Uri.DecodeEncode | src/services/cacheService.js:20 | `decodeURIComponent(encodeURIComponent(s)) == s` for every string of scalar values |
| Uri.EncodeIsAscii | src/services/cacheService.js:20 | every character `encodeURIComponent` emits is ASCII, so `btoa` accepts it |
| Uri.EncodeURIComponent | src/services/cacheService.js:20 | `encodeURIComponent` over UTF-8; `Uri.EncodeIsAscii` and `Uri.DecodeEncode` state its results |
| Uri.DecodeURIComponent | src/services/cacheService.js:34 | `decodeURIComponent`, failing on a malformed escape or UTF-8 sequence; `Uri.DecodeEncode` states its round trip |
| Base64.Btoa | src/services/cacheService.js:21 | `btoa` succeeds exactly on strings whose characters are all at most U+00FF |
| Base64.EncodeLength | src/services/cacheService.js:21 | the encoded text has a length divisible by 4, and is empty only for no octets |
| Base64.EncodeAlphabet | src/services/cacheService.js:21 | every encoded character is in the Base64 alphabet or is `=` |
| Base64.AtobEncode | src/services/cacheService.js:33 | `atob` of the encoding of some octets gives exactly those octets back |
| Base64.AtobBtoa | src/services/cacheService.js:33 | `atob(btoa(s)) == s` for every string `btoa` accepts |
| Base64.Atob | src/services/cacheService.js:33 | what `atob` returns is a binary string (every character at most U+00FF) |
| Base64.AtobPadding | src/services/cacheService.js:33 | `=` is dropped only when the text without white space is a whole number of quanta: `QQ==` decodes to "A" and `QQ=` throws |
| Cache.EncryptFails | src/services/cacheService.js:15-25 | `encrypt` returns `null` exactly when `JSON.stringify` throws |
| Cache.Encrypt | src/services/cacheService.js:15-26 | `encrypt`; `Cache.EncryptFails`, `Cache.EncryptAlphabet` and `Cache.DecryptEncrypt` state its results |
| Cache.DecryptEncrypt | src/services/cacheService.js:15-45 | `decrypt(encrypt(d))` is `d` for every JavaScript value `d` that is JSON |
| Cache.Decrypt | src/services/cacheService.js:31-45 | `decrypt`; `Cache.DecryptSaltCheck`, `Cache.DecryptFailures` and `Cache.DecryptEncrypt` state its results |
| Cache.DecryptEncryptUndefined | src/services/cacheService.js:15-40 | `encrypt(undefined)` is non-null, yet decrypts to `null` |
| Cache.EncryptAlphabet | src/services/cacheService.js:18-21 | a non-null `encrypt` result is non-empty, has a length divisible by 4, and uses only the Base64 alphabet and `=` |
| Cache.DecodeEncrypted | src/services/cacheService.js:20-35 | `atob` and then `decodeURIComponent` restore exactly the salted text that `encrypt` encoded |
| Cache.DecryptSaltCheck | src/services/cacheService.js:36-40 | a decoded text without the salt gives `null`; with it, `decrypt` parses exactly the text after the salt |
| Cache.DecryptFailures | src/services/cacheService.js:31-44 | a failing `atob` or `decodeURIComponent` makes `decrypt` return `null` |
| Cache.Lookup | src/services/cacheService.js:64-68 | `get` gives `null` when the prefixed key is absent or empty |
| Cache.CacheService.Set | src/services/cacheService.js:52-57 | writes only `CACHE_PREFIX + key`, and only when `encrypt` gives a non-empty text; a `setItem` that throws escapes, exactly when the store refuses the write, with the store unchanged |
| Cache.CacheService.Get | src/services/cacheService.js:64-68 | returns what the store's prefixed entry decrypts to, `null` if absent or empty; a `getItem` that throws on blocked storage escapes |
| Cache.CacheService.Remove | src/services/cacheService.js:73-75 | deletes exactly the prefixed key; on blocked storage the throw escapes and nothing changes |
| Cache.CacheService.Clear | src/services/cacheService.js:80-86 | the loop over all keys deletes exactly those with the prefix and leaves every other key and value; on blocked storage reading the keys throws and nothing changes |
| Cache.GetAfterSet | src/services/cacheService.js:52-68 | right after `set(k, d)`, `get(k)` gives `d` |
| Cache.SetOtherKey | src/services/cacheService.js:52-68 | `set` of one key leaves `get` of every other key unchanged |
| Cache.RemoveIdempotent | src/services/cacheService.js:73-75 | after `remove(k)`, `get(k)` is `null`, and a second `remove` changes nothing |
| Cache.GetAfterClear | src/services/cacheService.js:80-86 | after `clear()`, `get` gives `null` for every key |
| BrowserStorage.LocalStorage.SetItem | src/services/cacheService.js:55 | `setItem` maps the key to the value and changes nothing else; it throws, leaving the store, exactly when storage is blocked or the new contents exceed the quota |
| BrowserStorage.LocalStorage.RemoveItem | src/services/cacheService.js:74 | `removeItem` deletes the key and changes nothing else; it throws, leaving the store, exactly when storage is blocked |
| BrowserStorage.LocalStorage.Item | src/services/cacheService.js:65 | `getItem` returns the stored value, or `null` for a missing key |
| BrowserStorage.LocalStorage.GetItem | src/services/cacheService.js:65 | `getItem` throws exactly when storage is blocked, and otherwise returns what `Item` gives |
| BrowserStorage.LocalStorage.Clear | src/utils/helpers.js:209 | `clear` empties the store; it throws, leaving the store, exactly when storage is blocked |
| Helpers.SanitizeInput | src/utils/helpers.js:8-9 | a non-string input comes back unchanged; a string is sanitised |
| Helpers.SanitizeString | src/utils/helpers.js:11-15 | the output is no longer than the input, contains none of `< > " ' \``, and has no white space at either end |
| Helpers.StripUnsafe | src/utils/helpers.js:12-14 | after the three replacements no markup character remains and nothing has grown; `Helpers.StripUnsafeKeeps` states what is kept |
| Helpers.HandlerMatchUnique | src/utils/helpers.js:14 | an `on\w+=` match at a position has exactly one length, the one the replacement removes |
| Helpers.RemoveProtocol | src/utils/helpers.js:13 | removing every `javascript:` in any ASCII case, left to right, never lengthens the text or adds a character; the three lemmas below state what is dropped and what is kept |
| Helpers.ProtocolDropped | src/utils/helpers.js:13 | a match of `/javascript:/i`, in any ASCII case, at the front is dropped and the pass goes on after it |
| Helpers.ProtocolKeptPrefix | src/utils/helpers.js:13 | text in which no match starts is kept unchanged in front of what the pass makes of the rest |
| Helpers.ProtocolSinglePass | src/utils/helpers.js:13 | the pass is a single one: a match cut in two around another match, such as `javajavascript:script:`, leaves `javascript:` |
| Helpers.RemoveHandlers | src/utils/helpers.js:14 | removing every `on\w+=` in any ASCII case, left to right, never lengthens the text or adds a character; the three lemmas below state what is dropped and what is kept |
| Helpers.HandlerDropped | src/utils/helpers.js:14 | a match of `/on\w+=/i` at the front is dropped and the pass goes on after it |
| Helpers.HandlersKeptPrefix | src/utils/helpers.js:14 | text in which no match starts is kept unchanged in front of what the pass makes of the rest |
| Helpers.HandlersSinglePass | src/utils/helpers.js:14 | the pass is a single one: `oonclick=nclick=` and every text of its shape leaves the match `onclick=` |
| Sequences.FilterAll | src/utils/helpers.js:12 | a filter that accepts every character keeps the text as it is |
| Helpers.StripUnsafeKeeps | src/utils/helpers.js:12-14 | text with no markup character and no match of either pattern at any position comes through the three replacements unchanged |
| Helpers.SanitizeStringKeeps | src/utils/helpers.js:11-15 | such text with no white space at either end is returned by `sanitizeString` unchanged |
| Helpers.WordsHarmless | src/utils/helpers.js:12-14 | text of letters, digits and `_` holds no markup and no match: `javascript:` needs a `:` and `on\w+=` an `=` |
| Sequences.FilterSpec | src/utils/helpers.js:30-39 | a character filter keeps the accepted characters in order and with their counts, and drops all others |
| Helpers.SanitizeSql | src/utils/helpers.js:30-32 | the output is the input with every `'`, `"`, `;`, `\` deleted and the other characters in order |
| Helpers.SanitizeNumber | src/utils/helpers.js:37-39 | the output is the subsequence of the input's digits, `.` and `-` |
| Helpers.SanitizeNumberIdempotent | src/utils/helpers.js:37-39 | applying `sanitizeNumber` twice is applying it once |
| Sequences.FilterIdempotent | src/utils/helpers.js:37-39 | filtering twice with the same test is filtering once |
| Helpers.EmailCharacterisation | src/utils/helpers.js:44-47 | the email pattern holds iff there is no white space, exactly one `@`, a non-empty local part, and a `.` strictly inside the domain |
| Helpers.IsValidEmail | src/utils/helpers.js:44-47 | the email pattern written as a split at `@` and at a `.`; `Helpers.EmailCharacterisation` states its rules |
| Helpers.PhoneCharacterisation | src/utils/helpers.js:52-55 | the phone pattern holds iff there are at least ten characters, each a digit, white space, `-`, `+`, `(` or `)` |
| Helpers.IsValidPhone | src/utils/helpers.js:52-55 | the phone pattern; `Helpers.PhoneCharacterisation` states its rules |
| Helpers.UuidCharacterisation | src/utils/helpers.js:68-71 | the UUID pattern holds iff there are 36 characters, hyphens at 8, 13, 18 and 23, and hex digits of either case elsewhere |
| Helpers.IsValidUuid | src/utils/helpers.js:68-71 | the UUID pattern as five hex groups; `Helpers.UuidCharacterisation` states its rules |
| Helpers.RelativeTimeThresholds | src/utils/helpers.js:118-131 | "just now" below a minute (future times included), then floored minutes, hours and days, and the date form from seven days on |
| Helpers.FloorTwice | src/utils/helpers.js:122-125 | flooring seconds, then minutes, then hours is one floored division of the milliseconds |
| Helpers.CountedPlural | src/utils/helpers.js:128-130 | the unit gets an "s" exactly when the count is above 1 |
| Helpers.RelativePhrases | src/utils/helpers.js:118-131 | every result is the date form, "just now", or a count of at least one minute, hour or day |
| Helpers.FormatRelativeTime | src/utils/helpers.js:118-131 | `formatRelativeTime` with the current time as a parameter; `Helpers.RelativeTimeThresholds` and `Helpers.RelativePhrases` state what it gives |
| Helpers.RelativeTimeInvalid | src/utils/helpers.js:120-131 | an invalid date fails every threshold and falls back to the date form |
| Helpers.StoredValue | src/utils/helpers.js:177-185 | `storage.get` gives the default when the key is absent or empty, or when its text does not parse |
| Helpers.SafeStorage.Get | src/utils/helpers.js:177-185 | returns the parsed stored value; the default when the entry is absent, empty or unparsable, and also when `getItem` throws |
| Helpers.SafeStorage.Set | src/utils/helpers.js:187-195 | returns `true` and stores the text exactly when `JSON.stringify` succeeds and `setItem` does not throw; otherwise returns `false` with the store unchanged |
| Helpers.SafeStorage.Remove | src/utils/helpers.js:197-205 | deletes the key and returns `true`, or returns `false` with the store unchanged when `removeItem` throws |
| Helpers.SafeStorage.Clear | src/utils/helpers.js:207-215 | empties the whole store, not only the application's keys, and returns `true`; returns `false` with the store unchanged when `clear` throws |
| Helpers.StoredValueAfterSet | src/utils/helpers.js:177-195 | `storage.get` right after `storage.set(k, v)` gives `v` |
| Helpers.StoredValueAfterSetUndefined | src/utils/helpers.js:177-195 | after `storage.set(k, undefined)` the stored text does not parse, so `get` gives the default |
| AuthContext.LoadUser | src/contexts/AuthContext.jsx:19-31 | a missing or empty entry loads as the signed-out `null` |
| AuthContext.AuthProvider.constructor | src/contexts/AuthContext.jsx:19-31 | on readable storage: the user is the parsed entry, a corrupt entry is removed and gives `null`, and the invariant holds; on blocked storage `getItem` throws and the provider does not mount |
| AuthContext.AuthProvider.Login | src/contexts/AuthContext.jsx:33-36 | for a JavaScript value `u`, the user becomes `u` in every case; the entry holds its JSON text and the invariant holds when `setItem` succeeds; when it throws the store is unchanged and still loads as the previous user |
| AuthContext.AuthProvider.Logout | src/contexts/AuthContext.jsx:38-41 | the user becomes `null` and the entry is removed, which restores the invariant from any mounted state |
| AuthContext.AuthProvider.UpdateUser | src/contexts/AuthContext.jsx:43-49 | when the store takes the write, the user becomes `{ ...prev, ...d }`, exactly that value is stored, and the invariant holds; when `setItem` throws, the provider unmounts with the user and the store unchanged |
| AuthContext.AuthProvider.Valid | src/contexts/AuthContext.jsx:19-49 | the invariant: the provider is mounted and the entry `fitlife-user` loads as the user held in memory |
| AuthContext.LoadStoredUser | src/contexts/AuthContext.jsx:33-36 | a stored user's text loads back as that user |
| AuthContext.LoadRemovedUser | src/contexts/AuthContext.jsx:38-41 | after the entry is removed a load gives `null`, and removing it again changes nothing |
| AuthContext.LoginNullKeepsEntry | src/contexts/AuthContext.jsx:33-36 | `login(null)` leaves the entry `"null"` in place, which loads as `null` |
| Json.SpreadValue | src/contexts/AuthContext.jsx:45 | the spread object has the source's value for each key the source names, and the target's for every other key |
| AuthContext.MergeValue | src/contexts/AuthContext.jsx:43-49 | `{ ...prev, ...d }` has `d`'s fields overriding and keeps every other field of `prev` |
| AuthContext.Merge | src/contexts/AuthContext.jsx:45 | `{ ...prev, ...userData }` over the own properties of both; `AuthContext.MergeValue` states its fields |
| AuthContext.MergeWellFormed | src/contexts/AuthContext.jsx:45 | `{ ...prev, ...userData }` of two JavaScript values has distinct keys |
| Json.Put | src/contexts/AuthContext.jsx:45 | assigning one property sets it and leaves every other property |
| App.ProviderNeverLoading | src/contexts/AuthContext.jsx:52 | `loading` is always false, so the protected layout never shows its spinner |
| Calendar.DaysInMonth | src/pages/Calendar.jsx:97-99 | the last day of a month is between 28 and 31 |
| Calendar.NextMonthFollows | src/pages/Calendar.jsx:98-99 | day 0 of the next month is the last day of this month, so `getDate` of it is the month's length |
| Calendar.DaysBeforeMonthYear | src/pages/Calendar.jsx:97-99 | the twelve months of a year add up to 365 or, in a leap year, 366 days |
| Calendar.LeapYearsStep | src/pages/Calendar.jsx:97-100 | the count of leap years before `y` grows by one exactly past a leap year |
| Calendar.Weekday | src/pages/Calendar.jsx:100 | `getDay` of the first lies between 0 and 6 |
| Calendar.WeekdayNextMonth | src/pages/Calendar.jsx:97-100 | the first of the next month falls the month's length in days later in the week |
| Calendar.WeekdayAnchors | src/pages/Calendar.jsx:100 | 1 January 2000 is a Saturday and 1 January 1970 a Thursday |
| Calendar.Pad2 | src/pages/Calendar.jsx:17-18 | `padStart(2, '0')` gives at least two digits, exactly two below 100 |
| Calendar.Pad2Value | src/pages/Calendar.jsx:17-18 | the padded digits read back as the number |
| Calendar.DateStringLayout | src/pages/Calendar.jsx:15-20 | the text is the year, `-`, two digits with value month + 1, `-`, two digits with value day |
| Calendar.GetLocalDateString | src/pages/Calendar.jsx:15-20 | `getLocalDateString` from the year, month and day; `Calendar.DateStringLayout` states its layout |
| Calendar.GenerateCalendarDays | src/pages/Calendar.jsx:92-120 | there are weekday-of-the-first blank cells, then one cell per day 1..n in order, with `isCurrentMonth` and that day's date string |
| Calendar.FillCells | src/pages/Calendar.jsx:102-118 | the two loops build `start` blank cells, then the cells of days 1..n in order, each with its date string |
| Calendar.ClickCell | src/pages/Calendar.jsx:230 | a click changes the selected date only on a current-month cell, and then to that cell's date |
| Calendar.ClickDayCell | src/pages/Calendar.jsx:230 | clicking day `i` selects that day's date string; a blank leaves the selection |
| Calendar.GetEventTypeInfo | src/pages/Calendar.jsx:87-89 | the result is always a table entry: the one for the type if there is one, else the first |
| Sequences.FindFirst | src/pages/Calendar.jsx:88 | `find` gives the index of the first element the test accepts, or none when no element passes; it serves `eventTypes.find` and `healthTypes.find` |
| Fitness.ParseIntOfString | src/pages/Fitness.jsx:153 | `parseInt` of an integer's decimal text gives that integer |
| Fitness.ParseIntEmpty | src/pages/Fitness.jsx:153 | `parseInt` of an empty field, or of a lone `-`, is NaN |
| Fitness.ParseInt | src/pages/Fitness.jsx:153 | `parseInt` as the sets and reps inputs use it; `Fitness.ParseIntOfString` and `Fitness.ParseIntEmpty` state its results |
| Fitness.DropIndex | src/pages/Fitness.jsx:70 | `filter((_, i) => i !== index)` removes exactly that index, or nothing when it is out of range |
| Fitness.DropIndexOrder | src/pages/Fitness.jsx:67-72 | the other exercises keep their order |
| Fitness.DropIndexKeepsOne | src/pages/Fitness.jsx:157-165 | removing from a list of more than one leaves at least one |
| Fitness.RoutineForm.constructor | src/pages/Fitness.jsx:17-20 | the form starts with an empty name and one default exercise |
| Fitness.RoutineForm.AddExercise | src/pages/Fitness.jsx:60-65 | the list grows by one, keeps all earlier exercises, and ends with a new default exercise |
| Fitness.RoutineForm.RemoveExercise | src/pages/Fitness.jsx:67-72 | removes exactly the index; while removal is offered, at least one exercise remains |
| Fitness.RoutineForm.UpdateExercise | src/pages/Fitness.jsx:74-78 | changes one field of the exercise object at the index, in place; the list and the other fields stay |
| Fitness.RoutineForm.StartEdit | src/pages/Fitness.jsx:80-87 | takes the routine's name and its own exercise objects, or one default exercise only when none are listed |
| Fitness.RoutineForm.ResetAfterSubmit | src/pages/Fitness.jsx:48-50 | the form is hidden, editing ends, and the form is back to one default exercise |
| Health.FilterRecords | src/pages/Health.jsx:100-103 | every record kept matches the query |
| Health.FilterRecordsSpec | src/pages/Health.jsx:100-103 | the filter keeps exactly the matching records, each as often as it occurs, in their order |
| Health.Search | src/pages/Health.jsx:93-105 | a query that is empty after cleaning restores every record; any other filters by the cleaned query |
| Health.CleanQuery | src/pages/Health.jsx:94 | `sanitizeString(query.toLowerCase())`; `Helpers.SanitizeString` states what it removes and `Health.CleanQueryWord` what it keeps |
| Health.CleanQueryWord | src/pages/Health.jsx:94 | a query of letters, digits and `_` is only lower-cased |
| Health.SearchWord | src/pages/Health.jsx:93-105 | a non-empty query of letters, digits and `_` filters the records on its lower-case form |
| Health.SearchSpec | src/pages/Health.jsx:93-105 | the result is an ordered sublist of the records, and each matching record is kept as often as it occurs |
| Health.MatchByType | src/pages/Health.jsx:101 | a record whose lower-cased type holds the query matches, whatever its value |
| Health.HealthPage.SetRecords | src/pages/Health.jsx:44-46 | a change of the records resets the filtered list to them |
| Health.HealthPage.HandleSearch | src/pages/Health.jsx:93-105 | the filtered list becomes the search result; the records stay |
| Health.HealthPage.Displayed | src/pages/Health.jsx:224 | at most ten filtered records are shown, the first ones |
| Health.SubmitError | src/pages/Health.jsx:67-71 | submission goes ahead exactly when the parsed value is a number in [0, 500]; otherwise the range message is shown |
| Health.TypeInfoOf | src/pages/Health.jsx:225-229 | a known type shows its entry's icon, label and unit; an unknown one shows a chart icon, the type as label, and no unit |
| Health.FoundEntry | src/pages/Health.jsx:225 | the entry `find` gives for a type is the only one with that value, and none is found only when no entry has it |
| AuthPage.LoginByEmail | src/pages/Auth.jsx:35-39 | email login fails only with the email message, exactly when the email is empty; the mobile is not looked at |
| AuthPage.LoginByPhone | src/pages/Auth.jsx:40-43 | phone login fails exactly when the mobile is empty or shorter than ten code units; the email is not looked at |
| AuthPage.MobileCountsCodeUnits | src/pages/Auth.jsx:40-43 | the length test counts UTF-16 code units, so five astral characters pass it |
| AuthPage.SignupOrder | src/pages/Auth.jsx:45-54 | signup reports the first failing check in the order name, email, mobile, age, gender, city, state, country |
| AuthPage.FirstFailureSpec | src/pages/Auth.jsx:45-54 | no message iff every check passes; otherwise the message of a failing check all of whose predecessors pass |
| AuthPage.Validate | src/pages/Auth.jsx:34-54 | the validation block of `handleSubmit`; `AuthPage.LoginByEmail`, `AuthPage.LoginByPhone` and `AuthPage.FirstFailureSpec` state its result |
| AuthPage.SignupComplete | src/pages/Auth.jsx:45-54 | signup goes ahead iff every field is filled and the mobile is long enough |
| AuthPage.Submit | src/pages/Auth.jsx:30-56 | the error is the first failing check's message, or cleared; loading starts iff no check failed |
| AuthPage.Toggle | src/pages/Auth.jsx:344-347 | switches between login and signup and clears the error |
| AuthPage.ToggleTwice | src/pages/Auth.jsx:344-347 | two toggles return to the same mode, and a submit after a toggle applies the other mode's checks |
| App.CurrentPage | src/App.jsx:88-92 | `/` is the dashboard; any other path is the page id after its first character |
| App.NavigatePath | src/App.jsx:96 | the dashboard goes to `/`, any other id to `/` + id |
| App.CurrentPageOfNavigate | src/App.jsx:88-96 | navigating to a non-empty page id makes it the current page |
| App.NavigateOfCurrentPage | src/App.jsx:88-96 | a path that starts with `/` comes back from its page id, except `/dashboard`, which leads to `/` |
| App.RouteTable | src/App.jsx:98-107 | a path redirects home iff no route pattern matches it, and distinct routes show distinct screens |
| App.RouteMatches | src/App.jsx:98-106 | a path shows the screen of the k-th route iff it is that route in any ASCII case followed by any number of slashes |
| App.Route | src/App.jsx:98-107 | the route element chosen for a path; `App.RouteMatches` and `App.RouteTable` state which |
| App.DropTrailingSlashes | src/App.jsx:98-106 | the path without its trailing slashes: a prefix of it, not ending in `/`, followed only by slashes |
| App.MenuItemsRouted | src/components/layout/Sidebar.jsx:14-23 | the k-th sidebar entry navigates to the k-th route, a path with a screen of its own, where the sidebar highlights that same entry |
| App.Shortcut | src/App.jsx:66-80 | every shortcut target is a routed path |
| App.ShortcutTable | src/App.jsx:66-80 | the k-th digit key leads to the k-th route, and any other key does nothing |
| App.KeyPressGuard | src/App.jsx:53-80 | no shortcut fires while typing in an input, textarea, select or editable element, nor with Alt and no user; otherwise the table decides |
| App.HandleKeyPress | src/App.jsx:51-80 | `handleKeyPress`; `App.KeyPressGuard` states when it navigates and where |
| App.ProtectedRoute | src/App.jsx:24-41 | a spinner iff loading; otherwise a redirect to `/auth` iff there is no user, and the children iff there is one |
| App.ProtectedRouteUsers | src/App.jsx:36-40 | the signed-out `null` is redirected, and a user object sees the layout |
| BottomNav.ActiveIdMatchesItems | src/components/layout/BottomNav.jsx:23-33 | an item is highlighted iff the current path is its own path; a path no item has, such as `/api-test`, highlights none |
| BottomNav.ActiveId | src/components/layout/BottomNav.jsx:23-33 | `getActiveId`; `BottomNav.ActiveIdMatchesItems` states which item it names |
| BottomNav.NavItemsShape | src/components/layout/BottomNav.jsx:11-20 | only the logout item lacks a path, and it alone has the logout action; `/` highlights history |
| BottomNav.OnTap | src/components/layout/BottomNav.jsx:43-51 | the logout item asks for confirmation; any other item navigates to its path, which highlights that item |

## Left out

- Network calls. The REST client, the Supabase client and every page handler that awaits them (loading lists, creating, updating, signing in after the form checks) are left out. Their results come from outside.
- Timers, randomness and the DOM are left out: `debounce`, `throttle`, `generateId`/`generateUUID`, `sanitizeHTML`, `isMobile`/`isTouchDevice`, and the components that only render.
- The current time is a parameter. `formatRelativeTime` takes "now" in milliseconds. `getLocalDateString()` with no argument and `new Date(selectedDate)` are replaced by the year, month and day they yield.
  - The parsing of `selectedDate`, whose local getters read a date-only ISO text as UTC, is not modelled.
  - Time zones and the previous/next month buttons are not modelled.
- `formatDate` and its locale output are not modelled. `formatRelativeTime` returns the marker `AbsoluteDate` in its place.
- Floating point is not modelled.
  - `parseFloat` in the Health submit is a parameter: the value, or `None` for NaN.
  - JSON numbers are integers.
  - The Health page statistics (monthly count and average) are left out.
  - The Goals progress (`Math.random`) and the Profile page are left out.
- `Json.Parse`: accepts only text in the canonical form `Stringify` writes (no white space, integers only). A stored text that JavaScript would parse but that is written differently counts as corrupt in `LoadUser`, `StoredValue` and `Decrypt`. The members of a parsed object keep the order of the text, while `JSON.parse` lists integer-like keys first; the property values are the same either way.
- `Json.Stringify`: strings are sequences of Unicode scalar values, so lone surrogates and their `\u` escapes are not modelled.
- `AuthContext.AuthProvider.Login`: a `Json` value has no property whose value is `undefined`. The sign-in branch of `handleSubmit` passes `email: undefined` when the email field is empty and the profile has no email (src/pages/Auth.jsx:103-107). `JSON.stringify` drops such a key, so after a reload the stored user lacks a key that memory holds as `undefined`. `AuthProvider.Valid` and "the user becomes `u`" hold up to such keys; no read the app makes tells the two apart, because a missing property also reads as `undefined`.
- `AuthContext.Merge`: object spread copies keys in insertion order. JavaScript lists integer-like keys first, which is not modelled; the merged property values are the same either way.
- `AuthContext.OwnFields`: spreading a string gives one property per character; JavaScript indexes UTF-16 code units, so a character above U+FFFF gives two. No caller spreads a string (`updateUser` receives the form's object).
- `Text.ToLower`: folds ASCII letters only; full Unicode case mapping is not modelled. The `i` flag of the patterns likewise folds ASCII only, which is what those patterns need.
- `App.CurrentPage`: removes the first character. `substring(1)` removes the first UTF-16 code unit instead, which differs only for a path starting with a character above U+FFFF; browser paths always start with `/`.
- `Fitness.ParseInt`: takes the text of a number input. Exponent forms a browser may put there are read as `parseInt` reads text, up to the first non-digit.
- `AuthPage.Submit`: stops at `setLoading(true)`. The sign-in request that follows is a network call.
- `Cache.CacheService.Set`: writes only when `encrypt` gives a non-empty text. `encrypt` never gives the empty text (`Cache.EncryptAlphabet`), so this is the source's truthiness test, not a weakening.
- `BrowserStorage.LocalStorage`: the quota is an abstract test on the whole contents (`withinQuota`); how a browser counts keys and values against it is not modelled. Whether storage is blocked is fixed for the lifetime of the store.
- `App.Route`: any percent-decoding the router applies to the path before matching, and the `basename` it strips, are not modelled. The outer `/auth` route is not modelled.
- `AuthContext.AuthProvider.UpdateUser`: how React schedules the updater (eagerly or at the next render, twice in strict mode) is not modelled; the updater runs once, and a throw in it unmounts the provider.
- Concurrency and React's batching of state updates are not modelled. Each state update is one atomic step.

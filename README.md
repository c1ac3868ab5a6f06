# CraftConnect core, modelled in Dafny

CraftConnect is a Next.js marketplace for artisans. Its data lives in a Cosmic
content bucket. This project models the core of the site:

- **the content-store wrappers** (`lib/cosmic.ts`). Each read asks the bucket for
  one object type. A failure whose `status` is the number 404 becomes an empty
  answer: `[]` for a list, `null` for a single object. Every other failure is
  rethrown as `Failed to fetch <noun>`. Workshops, market insights and financing
  opportunities are sorted by a date field with `Array.prototype.sort`, which is
  stable. The two writes rethrow every failure with their own message.
- **the helpers** (`lib/utils.ts`): the image-service URL with its
  `URLSearchParams` query, text truncation, slug generation, the artisan rating,
  hash abbreviation, duration text, the e-mail check, the emptiness test, and
  the skill-level and demand-level lookups.
- **the data types** (`types.ts`): the select-value unions, the workshop
  metadata record and the four type guards.
- **the upcoming-workshops strip** (`components/UpcomingWorkshops.tsx`). It keeps
  the fetched workshops scheduled after "now", shows at most six, and shows a
  "coming soon" panel when none is left.
- **the workshop card** (`components/WorkshopCard.tsx`): defaults for missing
  metadata, the type icon and label, the status colour and text, the price
  badge, the address line and the registration controls.
- **the console-capture build step** (`scripts/inject-console-capture.js`). It
  walks the exported `out` directory and inserts a script before the first
  `</head>` of every HTML page that does not already carry the script's ready
  marker. The model also covers the bounded log the injected script keeps.

Modules, one per file:

- `Wrappers`: `Option`.
- `Seqs`: generic sequence facts.
- `JsString`: the JavaScript string and number operations the sources use.
- `Js`: JavaScript values.
- `Types`.
- `DateSort`: the stable date sort, an in-place insertion sort on an array
  proved against a functional specification.
- `Cosmic`.
- `Utils`.
- `UpcomingWorkshops`.
- `WorkshopCard`.
- `ConsoleCapture`.

The bucket, the clock, date parsing, `JSON.stringify` and `String()` of
functions and non-integral numbers are parameters.

Three behaviours of the reads are worth stating plainly:

- The reads rethrow every error that is not a 404, in every build.
- The reads do not check for a missing bucket client.
- A date that does not parse gives a NaN sort key. The comparator then returns
  NaN, which `sort` treats as "equal", and `DateSort.Compare` models it that way.
  With such records the comparator is not consistent, so the engine's order is
  not fixed. The model uses its insertion sort's order for them; see
  "## Left out".

## Model

| member | source | states |
|---|---|---|
| Cosmic.HasStatusExactly | lib/cosmic.ts:10-12 | `hasStatus` holds exactly for objects that have a `status` property, whatever its value |
| Cosmic.StatusMustBeTheNumber404 | lib/cosmic.ts:22-27 | a `status` of the string "404" is not a not-found; the number 404 is |
| Cosmic.NotFoundReadsAreEmpty | lib/cosmic.ts:15-66 | on a 404 failure every list read returns `[]` and every by-slug read returns `null` |
| Cosmic.OtherFailuresThrow | lib/cosmic.ts:50-66 | every other failure throws `Failed to fetch <noun>` with the read's own noun |
| Cosmic.FailureMessagesIdentifyTheRead | lib/cosmic.ts:15-221 | two reads with the same failure message ask for the same type and sort the same way; a list read's message never equals a single-object read's |
| Cosmic.FetchFailureIsInjective | lib/cosmic.ts:26 | different nouns give different failure messages |
| Cosmic.CollectionNounsIdentifyTheQuery | lib/cosmic.ts:15-221 | list reads with the same noun request the same object type and sort key |
| Cosmic.FetchCollection | lib/cosmic.ts:142-161 | a list read sorts an array copy of the answer in place and returns the read's specified outcome |
| Cosmic.UnsortedReadsKeepStoreOrder | lib/cosmic.ts:164-177 | reads without a sort return the bucket's objects unchanged and in order |
| Cosmic.SortedReadsOrderByDate | lib/cosmic.ts:150-154 | sorted reads return a permutation of the answer. Workshops and financing opportunities are ascending and market insights descending. When every date parses, the result is ordered, with equal dates kept in bucket order |
| Cosmic.WritesRethrowEveryFailure | lib/cosmic.ts:224-249 | create and update rethrow every failure, 404 included, with their own message; a nullish `productData` always makes create fail |
| DateSort.InsertLast | lib/cosmic.ts:150-154 | shifting the later elements up inserts `a[i]` into the sorted prefix `a[..i]` and leaves the rest of the array alone |
| DateSort.SortInPlace | lib/cosmic.ts:150-154 | the array ends equal to the specified stable sort of its old contents |
| DateSort.SortedPermutes | lib/cosmic.ts:150-154 | sorting keeps every element, as a multiset |
| DateSort.SortedIsOrdered | lib/cosmic.ts:150-154 | when all keys are dates, the sorted result is in the comparator's order |
| DateSort.SortedIsStable | lib/cosmic.ts:150-154 | elements with the same date keep their input order |
| DateSort.StableSortIsUnique | lib/cosmic.ts:188-192 | any ordered result that keeps equal dates in input order is the sorted result, so the specification pins the output down |
| DateSort.InsertPermutes | lib/cosmic.ts:210-214 | one insertion adds exactly the inserted element |
| DateSort.InsertOrdered | lib/cosmic.ts:210-214 | inserting a dated element into an ordered sequence keeps it ordered |
| DateSort.InsertStable | lib/cosmic.ts:210-214 | an insertion places the element after every element with the same date |
| Utils.OptimizeImage | lib/utils.ts:25-35 | the empty URL gives `""`. Otherwise the result is the URL, `?`, `w=` and `h=` for truthy dimensions, then `fit=crop&auto=format%2Ccompress` |
| Utils.SearchParams.Append | lib/utils.ts:29-32 | `append` adds the pair at the end and keeps every earlier pair |
| Utils.SerializeImageParams | lib/utils.ts:28-34 | serializing the appended pairs gives the image query, with the comma escaped |
| Utils.FormEncodeConcat | lib/utils.ts:34 | form encoding works character by character, so it distributes over concatenation |
| Utils.FormEncodeOfSafeText | lib/utils.ts:34 | letters, digits and `*-._` pass through form encoding unchanged |
| JsString.TrimIsDetermined | lib/utils.ts:40 | any slice of a string that has only white space around it, and no white space at either end, is that string's `trim()`, so `Utils.TruncateText`'s contract leaves exactly one answer |
| Utils.TruncateText | lib/utils.ts:38-41 | text within the limit is returned as is. Longer text becomes a slice of its first `maxLength` characters followed by `...`. The slice has only white space around it within those characters, and neither starts nor ends with white space |
| Utils.TruncateWithoutWhitespace | lib/utils.ts:38-41 | text without white space is cut at exactly `maxLength` characters, and `...` is added |
| Utils.GenerateSlug | lib/utils.ts:44-51 | every result is a slug: `a-z`, `0-9` and `-`, with no two hyphens in a row |
| Utils.SlugIsFixedPoint | lib/utils.ts:44-51 | a slug goes through `generateSlug` unchanged |
| Utils.GenerateSlugIsIdempotent | lib/utils.ts:44-51 | slugging a slug changes nothing |
| Utils.CollapseRuns | lib/utils.ts:48-49 | a collapsed run becomes the one replacement character; the other characters come from the input; no two matching characters stay adjacent |
| Utils.CollapseRunsAround | lib/utils.ts:48-49 | a character outside the class stays in its place, and the text on either side of it is collapsed on its own |
| Utils.CollapseRunThenRest | lib/utils.ts:48-49 | a maximal run of class characters becomes exactly one replacement character |
| Utils.CollapseRunsOfCollapsed | lib/utils.ts:48-49 | text that already has no runs is left unchanged |
| Utils.KeepSlugInput | lib/utils.ts:47 | only `[a-z0-9 -]` characters remain; text made only of them is kept whole |
| Utils.KeepSlugInputConcat | lib/utils.ts:47 | the filter works character by character: filtering a concatenation filters each part, in order |
| Utils.KeepSlugInputOfChar | lib/utils.ts:47 | one character is kept exactly when it is in `[a-z0-9 -]` |
| Utils.Rating | lib/utils.ts:54-72 | the rating is at most 5.0, and at least the base 3.0 for non-negative inputs |
| Utils.CalculateArtisanRating | lib/utils.ts:54-72 | the imperative accumulation returns the rating function's value |
| Utils.RatingIsMonotone | lib/utils.ts:54-72 | more experience or more products never lower the rating |
| Utils.RatingOrdersStatuses | lib/utils.ts:65-66 | `master_artisan` rates at least as high as any status, and `verified` at least as high as any other |
| Utils.RatingSaturates | lib/utils.ts:62-71 | with 15 years and 10 products, every status reaches the 5.0 cap |
| Utils.FormatBlockchainHash | lib/utils.ts:75-78 | the empty hash gives `Not verified`. Otherwise the result is the clamped prefix, `...`, then the last four characters |
| Utils.HashAbbreviation | lib/utils.ts:75-78 | for a hash of 4 or more characters, the abbreviation has `length + 7` characters: the first `length`, `...`, then the last four |
| Utils.JsRemainder | lib/utils.ts:83 | `%` truncates: the remainder has the dividend's sign, is smaller than the divisor in size, and differs from the dividend by a multiple of the divisor |
| Utils.FormatDuration | lib/utils.ts:81-88 | the text ends in `h` exactly when it shows whole hours, and in `m` otherwise |
| Utils.ParseFormatDuration | lib/utils.ts:81-88 | a reader of only the three label forms gets back every non-negative minute count from its text. The forms are `Nm` with N < 60, `Nh` with N ≥ 1, and `Nh Mm` with N ≥ 1 and 1 ≤ M ≤ 59, with numbers written as `String` writes them |
| Utils.ParseDurationReadsOnlyLabels | lib/utils.ts:81-88 | whatever that reader reads as `n` minutes is the text `formatDuration` writes for `n`. So a count under an hour is written `Nm`, whole hours `Nh`, and anything else `Nh Mm`; "90m" or "0h 30m" is never the label |
| Utils.ParseHoursMinutesLabel | lib/utils.ts:87 | the `Nh Mm` form with N ≥ 1 and 1 ≤ M ≤ 59 reads back as `60*N + M` |
| Utils.IsValidEmailMatchesPattern | lib/utils.ts:114-117 | the check holds exactly when the text matches `^[^\s@]+@[^\s@]+\.[^\s@]+$` |
| Utils.ValidEmailHasOneAt | lib/utils.ts:114-117 | a valid address holds exactly one `@` |
| Utils.IsEmpty | lib/utils.ts:125-130 | true exactly for `null`, `undefined`, `[]` and `{}` |
| Utils.SkillLevelColor | lib/utils.ts:91-99 | the grey default is given exactly to strings that are not a skill level |
| Utils.SkillLevelColorsDiffer | lib/utils.ts:91-99 | different skill levels get different colours |
| Utils.DemandLevelIndicator | lib/utils.ts:102-111 | the default indicator is given exactly to strings that are not a demand level |
| Utils.DemandIndicatorsDiffer | lib/utils.ts:102-111 | different demand levels get different icons and different colours |
| Types.LookupFindsListed | types.ts:237-245 | with distinct literals, looking up a member's literal finds that member |
| Types.ArtisanStatusIsClosed | types.ts:237 | the union has exactly its four members, with distinct literals |
| Types.ProductStatusIsClosed | types.ts:238 | the union has exactly its four members, with distinct literals |
| Types.StoryTypeIsClosed | types.ts:239 | the union has exactly its four members, with distinct literals |
| Types.WorkshopTypeIsClosed | types.ts:240 | the four members have distinct literals, and each literal parses back to its member |
| Types.WorkshopStatusIsClosed | types.ts:241 | the five members have distinct literals, and each literal parses back to its member |
| Types.SkillLevelIsClosed | types.ts:242 | the four members have distinct literals, and each literal parses back to its member |
| Types.DemandLevelIsClosed | types.ts:243 | the five members have distinct literals, and each literal parses back to its member |
| Types.FinancingTypeIsClosed | types.ts:244 | the union has exactly its five members, with distinct literals |
| Types.AIContentTypeIsClosed | types.ts:245 | the union has exactly its five members, with distinct literals |
| Types.GuardsAreExclusive | types.ts:281-294 | at most one guard holds, and one holds exactly for the four guarded type tags |
| Types.GuardsReadOnlyTheTag | types.ts:281-294 | objects with the same type tag get the same answer from every guard |
| UpcomingWorkshops.UpcomingMeansLater | components/UpcomingWorkshops.tsx:9-12 | a workshop is upcoming exactly when its date parses and lies after now; one without a date never is |
| UpcomingWorkshops.Upcoming | components/UpcomingWorkshops.tsx:9-11 | every kept workshop is upcoming |
| UpcomingWorkshops.UpcomingMembers | components/UpcomingWorkshops.tsx:9-11 | the filter keeps exactly the upcoming workshops of the list |
| UpcomingWorkshops.UpcomingConcat | components/UpcomingWorkshops.tsx:9-11 | filtering a concatenation filters each part and keeps their order |
| UpcomingWorkshops.UpcomingKeepsOrder | components/UpcomingWorkshops.tsx:9-11 | the filter keeps a date-ordered list ordered |
| UpcomingWorkshops.Select | components/UpcomingWorkshops.tsx:9-12 | at most six workshops, the first ones of the upcoming list, all of them when fewer than six remain |
| UpcomingWorkshops.SelectionIsSoonest | components/UpcomingWorkshops.tsx:9-12 | from a date-ordered list, the shown workshops are in date order and none is later than an upcoming one left out |
| UpcomingWorkshops.StripShowsSoonestFetched | components/UpcomingWorkshops.tsx:9-12 | given what `getWorkshops` returns, the strip shows the soonest upcoming workshops in date order |
| UpcomingWorkshops.Render | components/UpcomingWorkshops.tsx:14-52 | the "coming soon" panel exactly when nothing is selected; otherwise one card per workshop, in order, with a 100 ms animation delay per position and registration shown |
| UpcomingWorkshops.Strip | components/UpcomingWorkshops.tsx:5-14 | a 404 from the bucket shows the "coming soon" panel; any other failure propagates as the read's `Failed to fetch workshops` error |
| WorkshopCard.WithDefaults | components/WorkshopCard.tsx:11-27 | each missing field takes its documented default, and each present field is kept |
| WorkshopCard.TypeIcon | components/WorkshopCard.tsx:29-37 | an unknown type shows the globe icon |
| WorkshopCard.TypeLabel | components/WorkshopCard.tsx:50-58 | an unknown type is labelled `Virtual` |
| WorkshopCard.TypeLookupsSeparateTheTypes | components/WorkshopCard.tsx:29-58 | unknown types look like `virtual_online`; the four types get four different labels and four different icons |
| WorkshopCard.StatusColor | components/WorkshopCard.tsx:39-48 | an unknown status is grey |
| WorkshopCard.GreyStatuses | components/WorkshopCard.tsx:39-48 | the grey colour goes exactly to `cancelled` and to unknown statuses |
| WorkshopCard.StatusColorsDiffer | components/WorkshopCard.tsx:39-48 | apart from `cancelled`, different statuses get different colours |
| WorkshopCard.CapitaliseWords | components/WorkshopCard.tsx:86 | a character changes only where a word starts, and only from lower to upper case. Words start where they started, and no word starts with a lower-case letter |
| WorkshopCard.CapitaliseWordsIsIdempotent | components/WorkshopCard.tsx:86 | capitalising twice gives what capitalising once gives |
| WorkshopCard.Humanise | components/WorkshopCard.tsx:86 | the first `_` becomes a space and no word of the result starts with a lower-case letter. Apart from that underscore, a character changes only where it is a lower-case letter starting a word once the underscore is a space, and it changes to upper case; letters inside words keep their case |
| WorkshopCard.HumaniseTwoWords | components/WorkshopCard.tsx:156 | `master_class` style values read as two capitalised words |
| WorkshopCard.HumaniseKeepsLaterUnderscores | components/WorkshopCard.tsx:86 | only the first underscore is replaced: `a_b_c` shows as `A B_c` |
| WorkshopCard.RegistrationAction | components/WorkshopCard.tsx:180-203 | a link exactly for `open_registration` and `waitlist`, and it points at the workshop's page |
| WorkshopCard.RegistrationActionsDiffer | components/WorkshopCard.tsx:180-203 | different statuses give different controls |
| WorkshopCard.UnavailableMeansUndeclared | components/WorkshopCard.tsx:199-201 | the `Unavailable` button shows exactly for strings that are not a status |
| WorkshopCard.PriceLabel | components/WorkshopCard.tsx:92 | a price badge exactly when the price is positive, `Free` otherwise |
| WorkshopCard.LocationLine | components/WorkshopCard.tsx:145-150 | the address shows exactly for in-person workshops with a non-empty address |
| WorkshopCard.RenderCard | components/WorkshopCard.tsx:7-212 | no card without a workshop or its metadata. There is a banner exactly when the thumbnail URL is non-empty, an address line as `LocationLine` says, and registration controls unless they are turned off. The date, description and cultural-context lines show exactly when their fields are non-empty |
| WorkshopCard.RegistrationLinksTargetTheWorkshop | components/WorkshopCard.tsx:178-212 | every registration link and the details link point at `/workshops/<slug>` |
| WorkshopCard.BannerShowsCroppedImageAndPrice | components/WorkshopCard.tsx:65-96 | the banner image is the 600×300 cropped image URL; the price shows `Free` exactly when the price is not positive |
| ConsoleCapture.ScriptCarriesMarker | scripts/inject-console-capture.js:100 | the model's stand-in for the injected script (its ready message only) contains the `console-capture-ready` marker |
| ConsoleCapture.InjectFile | scripts/inject-console-capture.js:171-180 | a page is written exactly when it lacks the marker; an unwritten page, or one without `</head>`, keeps its content |
| ConsoleCapture.InjectionInsertsBeforeFirstHead | scripts/inject-console-capture.js:177 | injection only inserts the script and a newline, right before the first `</head>` |
| ConsoleCapture.InjectionIsIdempotent | scripts/inject-console-capture.js:175-179 | injecting twice gives what injecting once gives; a page injected once is not written again |
| ConsoleCapture.ProcessEntry | scripts/inject-console-capture.js:165-182 | each entry keeps its name and kind; files not named `*.html` are untouched; directories keep their size |
| ConsoleCapture.ProcessEntriesAt | scripts/inject-console-capture.js:165-182 | each entry of a listing is processed in its own place |
| ConsoleCapture.ProcessEntriesConcat | scripts/inject-console-capture.js:165-182 | walking a concatenated listing walks each part |
| ConsoleCapture.ProcessHtmlFiles | scripts/inject-console-capture.js:162-183 | the recursive loop returns the walked tree and the paths it wrote, in write order |
| ConsoleCapture.InjectConsoleCapture | scripts/inject-console-capture.js:154-187 | without an `out` directory nothing is read or written; otherwise the whole tree is walked |
| ConsoleCapture.WalkIsIdempotent | scripts/inject-console-capture.js:162-185 | a second build step leaves the tree as the first left it |
| ConsoleCapture.SecondWalkWritesNothing | scripts/inject-console-capture.js:162-185 | when every unmarked page has a `</head>`, a second build step writes no file |
| ConsoleCapture.Push | scripts/inject-console-capture.js:48-51 | the log never exceeds 500 entries and ends with the new entry |
| ConsoleCapture.PushKeepsNewest | scripts/inject-console-capture.js:48-51 | the log always holds the newest 500 captured entries |
| ConsoleCapture.ArgText | scripts/inject-console-capture.js:26-38 | strings are kept as they are; an object that cannot be serialized shows `[Object]` |
| ConsoleCapture.MessageKeepsStringArguments | scripts/inject-console-capture.js:26-39 | splitting the message at spaces gives back every space-free string argument, in order |
| ConsoleCapture.LogBuffer.CaptureLog | scripts/inject-console-capture.js:24-51 | the new entry carries the joined message and is pushed to the log; the log stays within 500 entries |

## Left out

- The Cosmic SDK, the network and the client construction (lib/cosmic.ts:1-7) are not modelled. The bucket's answer is a parameter: a list, an object, or an error value.
- The model of JavaScript values has no prototype chain. An object is its own enumerable properties. So `'status' in error` (lib/cosmic.ts:10-12) is modelled as an own-property test and misses an inherited `status`; `Object.keys` in `isEmpty` does see own enumerable keys only.
- The `props` list and `depth(1)` of each read are not modelled. The query is reduced to the object type and the sort key.
- `new Date(...).getTime()` is not modelled. Date parsing is a parameter that returns NaN (`None`) or milliseconds, and the clock is a `now` parameter.
- `formatCurrency`, `formatDate`, `cn` and `generateTempId` in lib/utils.ts are not modelled. They are `Intl` formatting, class-name joining and randomness. The card's price is modelled as the badge it selects.
- Strings are sequences of code points, not UTF-16 units. Lower-casing is ASCII-only, so non-ASCII letters that `toLowerCase` would change are not modelled in `Utils.GenerateSlug`.
- Numbers are modelled as integers where the source prints them: dimensions, minutes and participant counts. Non-integral values and magnitudes of 10^21 or more are not modelled, except through the `show` parameter of `ConsoleCapture.StringOf`.
- Workshop metadata fields that hold `null` are not modelled. Destructuring defaults apply only to `undefined`, and the model's `Option` stands for "present or undefined".
- WorkshopCard's instructor block (components/WorkshopCard.tsx:104-119) is not modelled. It only prints the linked artisan's title, initial and cultural background, and the model's metadata record has no `artisan` field. The `formatDate` and `toLocaleTimeString` text of the date (components/WorkshopCard.tsx:126) is not modelled either: the card keeps the raw date, and shows it only when it is non-empty. Title, duration, participants and language are carried into `WorkshopCard.RenderCard`'s result without a contract of their own.
- The browser side of the injected script is not modelled. That is console and history patching, the error listeners, `postMessage`, the timers and the iframe check. Only the log buffer and the message text of `captureLog` are modelled.
- The injected script's text is represented by a short stand-in that carries the `console-capture-ready` marker and no `</head>`.
- File-system reads and writes and the script's console output are not modelled. The directory tree is a value, and the written paths are returned.
- The `console.error` calls of `createProduct` and `updateProduct` (lib/cosmic.ts:234, lib/cosmic.ts:247) are not modelled, because they only log. The rethrown errors are modelled.
- Utils.Rating: computes over exact reals. IEEE double rounding is not modelled, and neither are NaN or infinite inputs (lib/utils.ts:56-72). `Utils.CalculateArtisanRating` shares this.
- Cosmic.FetchCollection: when some dates do not parse, the comparator is inconsistent and section 23.1.3.30 of ECMA-262 leaves the order implementation-defined. The model fixes it to the insertion sort's order; `Cosmic.SortedReadsOrderByDate` promises order and stability only when every date parses.
- `JSON.stringify` with its replacer is a parameter of `ConsoleCapture.ArgText`, and so is `String()` of functions and non-integral numbers.
- Utils.FormatDuration: has no round-trip lemma for negative minutes; `Utils.ParseFormatDuration` covers non-negative counts only.

# Verified model of a marketplace backend

A Dafny model of the parts of this backend whose correctness rests on an algorithm or a
protocol rather than on one query: the email template validator and merge engine with its cache,
the Bangkok calendar and the customer cohorts computed on it, one-time codes, the stock ledger,
carts, phone numbers as customer identities, the seeded shuffle and the audit log purge.

`dafny verify dfyconfig.toml` checks everything.

## How the model is built

- **Templates** (`text`, `template_scanner`, `html_escape`, `template_merge`, `content_slot`,
  `merge_theorems`, `slot_spelling`, `template_registry`, `template_validation`, `template_renderer`,
  `template_tokens`, `leftover_placeholders`, `sent_placeholders`, `logo_url`, `merged_markup`,
  `template_witnesses`). The two regular expressions are greedy scanners, each proved equal to the
  expression's meaning stated without a scanning order. On top of them stand the global replacements,
  the save-time validators and the send-time merge. The two guarantees that validation does not give in
  full, no placeholder left and an exact merge for any logo URL, have their exact conditions: one read off the
  saved templates, the other off the URL.
- **Content management** (`template_cache`, `email_cms`). Rows, cache and rendering are classes whose
  invariant says that every cache record, expired or not, is what a fresh read would give.
- **Analytics** (`bangkok_calendar`, `time_since_purchase`, `customer_cohorts`, `finite_sets`). Instants are
  integer milliseconds; calendar arithmetic follows section 21.4.1 of ECMA-262, two-digit years
  included. The order table is a finite map and the SQL queries are set comprehensions over it.
- **Identity** (`phone`, `otp`, `customers`). One-time codes are a state machine over timed calls
  with a log of every comparison; bounds are stated over whole runs with a monotone clock.
- **Stock and carts** (`inventory`, `inventory_runs`, `inventory_store`, `cart`, `cart_service`). Classes with the source's
  fields, proved against functions on values; the theorems are about runs of those functions.
- **Small algorithms** (`seeded_shuffle`, `audit_purge`). The loops on an array and on a table.

Every database transaction, and every service call outside one, is one atomic step; the clock is a
parameter of each step. HTML block-list scanning, plaintext conversion and the comparison of a code
with its hash are function parameters, so results hold for any such functions. The converse about logo URLs uses
that the scan finds nothing in text without `<` and `=`, one of which each of its expressions needs, and the examples
that it finds nothing in their own text.

## What the proofs found

- **A saved template can still send a placeholder.** The merge comments that leftovers should not
  occur after validation. For values without open braces they are impossible exactly when no literal brace of the saved
  page can come to open a placeholder (`SentPlaceholders.SentHtmlIsCleanIff`); the test, `LeftoverPlaceholders.CanLeave`,
  reads the templates alone. It fails inside a body (`TemplateWitnesses.NestedPlaceholderIsSent`, sent with `{{aXb}}`) and
  where shell and body meet (`SeamPlaceholderIsSent`).
- **So can a value.** Values are not rescanned, so a store name typed as `{{x}}` is sent as one
  (`TypedPlaceholderIsSent`); for all values whatever, only templates without placeholders are safe (`AnyHtmlIsCleanIff`).
- **Some logo URLs take the body.** Every accepted shell is merged exactly if and only if the URL cannot spell a slot
  (`LogoUrl.AcceptedShellsMergeExactlyIff`): it holds one, or it ends with the beginning of a slot and begins with the
  end of one, and text between two logos can supply the rest. `LogoThatSpellsSlot` has such a URL.
- **Escape then decode is the identity on more than ampersand-free values**: exactly on those that spell none
  of four entities (`HtmlEscape.DecodeInvertsEscapeIff`).
- **Years 0 to 99 are moved by `Date.UTC`, and years before 1 are read without their era**, a year v as 1 - v. The
  calendar results say exactly where this shows: `LocalThenParts`, `PartsThenLocal`, `MonthBoundsTileIff`,
  `InMonthBoundsIff`, `TimeSinceIsExactIff`. The year 50 becomes 1950 (`YearFiftyIs1950`), a day of the year -2025 reads as
  one of 2026 without being in its bounds (`EraIsNotRead`), and 26 days into January of the year 100 or of the year 1 count
  as none (`CrossingLosesDays`, `EraLosesDays`).
- **Month counts are not always maximal.** 31 January to 28 February is 0 months 28 days, although a month clamped to
  28 February would fit (`EndOfJanuary`); `MonthsAreMaximalIff` gives the exact cases.
- **The attempt limit does not bound phone changes.** A phone change compares the code and, when it fails, leaves no
  trace on it: any number of wrong codes can be tried (`Otp.ChangesCompareWithoutBound`). All other comparisons are
  bounded, by the limit per code and by four times the limit per phone in five minutes, which some run reaches
  (`Otp.BoundIsReached`).
- **The shuffle can grow its list.** The largest first draw swaps with the place past the end; one
  post-hash state does it, and a four-unit seed reaches that state.
- **A restored order nets to zero exactly when its lines name distinct variants**
  (`InventoryRuns.RestoredOrderNetsToZeroIff`).
- **A phone lookup can match a row of another number** when the local form has a second leading zero or a non-digit
  (`Phone.LookupIsSoundIff`, and `AnotherNumberIsFound` for `0012345678`); customers stay unique all the same.

## Model

| member | source | states |
|---|---|---|
| TemplateScanner.DoubleAtIsTheRegex | src/modules/email/email-html-validation.ts:17 | one greedy pass returns a hit exactly when the `{{name}}` expression, lookaheads included, has that match, and the match is the only one |
| TemplateScanner.SlotAtIsTheRegex | src/modules/email/email-html-validation.ts:8 | the same for the `{{{content}}}` expression |
| TemplateScanner.DoubleAtExtends | src/modules/email/email-html-validation.ts:17 | a match survives appended text unless a close brace lands right behind it |
| TemplateMerge.NamesAreOccurrences | src/modules/email/email-html-validation.ts:36-44 | the left-to-right scan misses nothing: the names found are those of the matches starting at any position whatever |
| TemplateMerge.SubstituteConcat | src/modules/email/email-template-merge.util.ts:17-32 | before text that starts with two open braces, substitution and name collection split: no match reaches across |
| TemplateMerge.SubstituteAtMatch | src/modules/email/email-template-merge.util.ts:17-32 | each match is replaced in place, by its value raw or escaped or by itself when its name has none, while the text before and after it is substituted independently, so values are never rescanned |
| TemplateMerge.SubstituteWithoutMatch | src/modules/email/email-template-merge.util.ts:17-32 | text without a placeholder is returned unchanged |
| ContentSlot.Inject | src/modules/email/email-template-merge.util.ts:35-42 | the callback loop with its `replaced` flag: the first slot becomes the body, later ones vanish, all else is kept |
| ContentSlot.SplitAtSlot | src/modules/email/email-template-merge.util.ts:35-42 | around a lone marker, counting gives 1, stripping removes just the marker and injection puts the body just there |
| ContentSlot.OneSlotSplits | src/modules/email/email-html-validation.ts:27-29 | a slot count of 1 means the text is prefix, marker, suffix with no other slot start in either |
| ContentSlot.CountZeroMeansNoSlot | src/modules/email/email-html-validation.ts:27-29 | a slot count of 0 means that no slot starts at any position, not only where the scan looked |
| ContentSlot.NoSlotRunsIntoSlot | src/modules/email/email-html-validation.ts:8 | a slot match that starts before a marker ends before it |
| ContentSlot.OnlySlot | src/modules/email/email-html-validation.ts:31-34 | if one kind of triple brace is missing on both sides of a marker, that marker is the only slot |
| MergeTheorems.SubstituteAroundSlot | src/modules/email/email-template-merge.util.ts:11-32 | substitution never touches the slot marker and works on both of its sides separately |
| MergeTheorems.SubstituteKeepsNoTriple | src/modules/email/email-template-merge.util.ts:17-32 | values without a given brace create no run of three of it, even next to braces of the template |
| MergeTheorems.ShellMergeIff | src/modules/email/email-template-renderer.service.ts:251-255 | for any values: injecting into a substituted shell gives substituted prefix, the body once and unscanned, substituted suffix, if and only if substitution made no slot on either side |
| ContentSlot.SlotsAroundSlot | src/modules/email/email-html-validation.ts:27-34 | a marker is found whatever other slots there are: counting and stripping split around it |
| ContentSlot.FirstSlotGetsBody | src/modules/email/email-template-merge.util.ts:35-42 | whatever comes after, the first slot gets the body and every later one is dropped |
| SlotSpelling.SpelledIsTheSlot | src/modules/email/email-html-validation.ts:8 | an automaton of thirteen symbols with two pauses reads exactly the slot markers |
| SlotSpelling.NoSlotIsMade | src/modules/email/email-template-merge.util.ts:17-32 | a value that cannot spell a slot makes none in any template without stray triple braces, wherever its placeholders stand |
| SlotSpelling.EscapedSpellsSlot | src/modules/email/email-templates.ts:30-36 | escaping neither gives nor takes a value's power to spell a slot |
| SlotSpelling.OneKindOfBrace | src/modules/email/email-html-validation.ts:8 | a value that lacks one kind of brace cannot spell a slot |
| MergeTheorems.StrippedNamesCover | src/modules/email/email-html-validation.ts:128-131 | with no stray close braces, every placeholder of the whole shell is one of the slot-stripped text that was checked |
| TemplateTokens.SubstitutionWrites | src/modules/email/email-template-merge.util.ts:17-32 | substitution writes the literal characters and rendered values of the scanned template in order |
| LeftoverPlaceholders.CompletesIsTheRegex | src/modules/email/email-html-validation.ts:17 | an automaton with one character at a time reads exactly the `{{name}}` matches |
| LeftoverPlaceholders.LeftIsOpened | src/modules/email/email-template-merge.util.ts:17-32 | with values free of open braces a placeholder is left exactly when some literal brace is completed to one |
| LeftoverPlaceholders.LeavesNothing | src/modules/email/email-template-merge.util.ts:11-32 | a template that cannot leave a placeholder leaves none, whatever the values without open braces |
| LeftoverPlaceholders.LeavesOne | src/modules/email/email-template-merge.util.ts:11-32 | one that can does, for values that need no escaping, the same text for every placeholder that need not be empty |
| SentPlaceholders.SubstitutionIsCleanIff | src/modules/email/email-template-merge.util.ts:11-32 | no values without open braces leave a placeholder if and only if no literal brace of the template can come to open one |
| SentPlaceholders.ValueIsLeft | src/modules/email/email-template-merge.util.ts:22-31 | a placeholder that a value spells is in the result: values are not rescanned |
| SentPlaceholders.AnyValuesAreCleanIff | src/modules/email/email-template-merge.util.ts:11-32 | no values whatever leave a placeholder if and only if the template has none |
| TemplateValidation.ExtractPlaceholderNames | src/modules/email/email-html-validation.ts:36-44 | the exec loop returns every name of the text exactly once |
| TemplateValidation.ExecNames | src/modules/email/email-html-validation.ts:38-42 | one exec call from `lastIndex` skips no name |
| TemplateValidation.ValidateContainerHtmlShell | src/modules/email/email-html-validation.ts:101-147 | no error if and only if the shell is acceptable; each error if and only if its own check fails, the size limit being 204800 bytes; the code thrown |
| TemplateValidation.ValidateEmailContentTemplate | src/modules/email/email-html-validation.ts:156-212 | no error if and only if all three fields are acceptable; each error if and only if its own check fails; unknown names over all fields; the code thrown |
| Text.Utf8LengthIs | src/modules/email/email-html-validation.ts:96-98 | the size of a field: every character adds the fewest UTF-8 bytes that have room for it (section 3 of RFC 3629) |
| TemplateValidation.UnknownIn | src/modules/email/email-html-validation.ts:184-189 | the nested loops collect each unknown name of any field once |
| TemplateValidation.AcceptedShellSplits | src/modules/email/email-html-validation.ts:101-147 | an accepted shell is prefix, slot, suffix without stray triple braces, and all placeholders of the whole shell are the logo URL |
| TemplateValidation.StrayCheckIsNeeded | src/modules/email/email-html-validation.ts:113-118 | without the stray-brace check a shell could hide an unknown placeholder from the stripped text |
| TemplateRenderer.FillVars | src/modules/email/email-template-renderer.service.ts:224-234 | the loop ends with the caller's variables, the logo URL over them, and '' for each registry name still unset |
| TemplateRenderer.Merge | src/modules/email/email-template-renderer.service.ts:219-258 | subject, text and HTML of a send as a function of templates and variables |
| TemplateRenderer.SavedTemplatesMergeExactly | src/modules/email/email-template-renderer.service.ts:219-258 | for any accepted shell and any logo URL that cannot spell a slot, the HTML sent is substituted prefix, merged body once, substituted suffix |
| SentPlaceholders.EmailIsWritten | src/modules/email/email-template-renderer.service.ts:219-258 | every part of a send of accepted templates, token by token: subject and text with the values as given, the body and both sides of the shell with escaped values, the logo URL over a given one, nothing for a value not given, the order lines raw, plaintext of the body for a blank text |
| SentPlaceholders.OnlyItemsAreTrusted | src/modules/email/email-template-registry.ts:15-98 | of all placeholders only the order lines of the paid-order email are trusted as HTML |
| LogoUrl.AcceptedShellsMergeExactlyIff | src/modules/email/email-template-renderer.service.ts:219-258 | all accepted shells merge exactly if and only if the logo URL cannot spell a slot: for every other URL there is an accepted shell that does not |
| TemplateRenderer.SavedPlaceholdersHaveValues | src/modules/email/email-template-renderer.service.ts:224-234 | every placeholder of accepted templates has a value at send time |
| SentPlaceholders.SentFieldIsCleanIff | src/modules/email/email-template-renderer.service.ts:236-249 | a saved field, whichever it is and however it is escaped, is substituted without leaving a placeholder in any send with clean values if and only if none of its literal braces can come to open one |
| SentPlaceholders.SentSubjectAndTextAreCleanIff | src/modules/email/email-template-renderer.service.ts:236-249 | the subject of an accepted template's send, and its text when the text template is not blank, has no placeholder with clean values if and only if no literal brace of that field can come to open one |
| SentPlaceholders.SentHtmlIsCleanIff | src/modules/email/email-template-renderer.service.ts:219-258 | the HTML of saved templates has no placeholder in any send with clean values if and only if no literal brace of the page, shell around body, can come to open one |
| SentPlaceholders.AnyHtmlIsCleanIff | src/modules/email/email-template-renderer.service.ts:219-258 | the HTML has none for all values whatever if and only if shell and body have none and form none where they meet |
| MergedMarkup.SubstitutedMarkup | src/modules/email/email-template-merge.util.ts:22-31 | substitution conserves markup characters: the template's plus those of the values substituted raw |
| MergedMarkup.SentMarkup | src/modules/email/email-template-renderer.service.ts:226-255 | for any logo URL, the markup characters of a sent email are those of the saved shell, the saved body and trusted values; no other value adds one |
| TemplateWitnesses.NestedPlaceholderIsSent | src/modules/email/email-template-merge.util.ts:11-16 | a body that passes validation and still sends a placeholder |
| TemplateWitnesses.TypedPlaceholderIsSent | src/modules/email/email-template-merge.util.ts:22-31 | a saved body whose braces all match, and a store name typed with braces that is sent as a placeholder |
| TemplateWitnesses.SeamPlaceholderIsSent | src/modules/email/email-template-renderer.service.ts:251-255 | an accepted shell and body without placeholders whose HTML has one where they meet |
| TemplateWitnesses.LogoThatSpellsSlot | src/modules/email/email-template-renderer.service.ts:251-255 | a logo URL that takes the body of an accepted shell, so that the shell's own slot is dropped |
| TemplateWitnesses.PiecesDoNotFit | src/modules/email/email-html-validation.ts:31-34 | a logo URL made of the end and the beginning of a slot that spells none, since the stray-brace check rules out the missing piece |
| HtmlEscape.EscapeIsOnePass | src/modules/email/email-templates.ts:30-36 | the four sequential replacements equal one per-character map |
| HtmlEscape.EscapedAt | src/modules/email/email-templates.ts:30-36 | wherever it stands, each of four characters becomes its named entity and any other stays |
| HtmlEscape.EscapeInjective | src/modules/email/email-templates.ts:30-36 | different values have different escapes |
| HtmlEscape.EscapeLeavesNoMarkup | src/modules/email/email-templates.ts:30-36 | no raw `<`, `>` or `"` is left |
| HtmlEscape.DecodeCommutes | src/modules/email/email-template-merge.util.ts:53-56 | decoding one entity of an encoded value equals encoding the value in which that entity has been decoded |
| HtmlEscape.DecodeOfEscape | src/modules/email/email-template-merge.util.ts:52-57 | decoding an escaped value decodes just the markup entities that the value itself spells |
| HtmlEscape.DecodeInvertsEscapeIff | src/modules/email/email-template-merge.util.ts:52-57 | the round trip returns the value if and only if it spells none of four entities, in any case |
| HtmlEscape.DecodeInvertsEscapeWithoutAmpersand | src/modules/email/email-template-merge.util.ts:52-57 | the round trip returns every value that has no ampersand |
| TemplateCache.OtherKeysUnaffected | src/modules/email/email-cms.service.ts:212-220 | rewriting a content row changes what other keys read not at all |
| EmailCms.CoherentAfterEdit | src/modules/email/email-cms.service.ts:219-220 | invalidating one key is enough after a content edit: the whole cache still agrees with the rows |
| EmailCms.EmailService.LoadEntry | src/modules/email/email-template-renderer.service.ts:199-213 | cached or not, the entry equals a fresh read of both tables, and the cache stays coherent |
| EmailCms.EmailService.RenderForSend | src/modules/email/email-template-renderer.service.ts:102-127 | in every reachable state and at any time, rendering through the cache equals rendering from the current rows: an enabled row is merged with its own container, exactly around its slot for URLs that spell none; a disabled or missing row falls back for that reason |
| EmailCms.EmailService.FindDefault | src/modules/email/email-template-renderer.service.ts:215-217 | finds a default container exactly when there is one |
| EmailCms.EmailService.CreateContainer | src/modules/email/email-cms.service.ts:76-100 | saves exactly the acceptable shells as given, refuses others with the first error's code and no change; other containers lose at most the flag; at most one default, cache coherent |
| EmailCms.EmailService.UpdateContainer | src/modules/email/email-cms.service.ts:102-142 | saves exactly when the container exists, the shell is acceptable and the default flag is not cleared; then each field has the value given, or the old one, and others lose at most the flag; each refusal exactly when its cause comes first; a default never gets lost |
| EmailCms.EmailService.SetDefaultContainer | src/modules/email/email-cms.service.ts:144-160 | succeeds exactly for existing containers, which then are the only default; nothing else changes |
| EmailCms.EmailService.UpdateContentTemplate | src/modules/email/email-cms.service.ts:176-223 | saves exactly the acceptable edits that name a container; then each field has the value given, or the old one, other rows are as before and only that key is invalidated; each refusal exactly when its cause comes first, with no change |
| EmailCms.PutContainerValid | src/modules/email/email-cms.service.ts:85-95 | when clearing the default flag before a save keeps at most one default, and when it keeps one |
| EmailCms.RenderedEmailIsExact | src/modules/email/email-template-renderer.service.ts:102-127 | from any valid rows the email of every enabled row is sent: subject and text of that row substituted, and, with a logo URL that cannot spell a slot, substituted prefix, merged body once, substituted suffix of its own container; all its placeholders have values |
| EmailCms.ContainerIsNeverMissing | src/modules/email/email-template-renderer.service.ts:115-124 | with valid rows the missing-container fallback is never reached |
| BangkokCalendar.YearLength | src/modules/analytics/customer-summary.math.ts:150 | the closed-form day number of 1 January grows by 365 or by 366 as the Gregorian rule says |
| BangkokCalendar.NextMonth | src/modules/analytics/customer-summary.math.ts:153-158 | each month starts where the one before it ends, over leap years and the turn of the year |
| BangkokCalendar.DateOf | src/modules/analytics/customer-summary.math.ts:126-138 | every day number has a valid date with that number |
| BangkokCalendar.DaysOrderDates | src/modules/analytics/customer-summary.math.ts:126-151 | day numbers order dates as year, month, day do and identify them |
| BangkokCalendar.LastDayIsMonthLength | src/modules/analytics/customer-summary.math.ts:155 | day 0 of the next month is the length of the month, leap years included |
| BangkokCalendar.EpochInBangkok | src/modules/analytics/customer-summary.math.ts:126-151 | the epoch is 7 in the morning of 1 January 1970 in Bangkok, where the day turns at 17:00 UTC |
| BangkokCalendar.LocalThenParts | src/modules/analytics/customer-summary.math.ts:126-151 | a wall-clock time converted to an instant reads back as its own date if and only if its year is 100 or later |
| BangkokCalendar.PartsThenLocal | src/modules/analytics/customer-summary.math.ts:126-151 | an instant is the converted midnight of its parts plus its time of day if and only if its year is 100 or later |
| BangkokCalendar.EraIsNotRead | src/modules/analytics/customer-summary.math.ts:126-138 | an instant of 15 March of the year -2025 has the parts of 15 March 2026 and lies before the bounds of March 2026 |
| BangkokCalendar.YearFiftyIs1950 | src/modules/analytics/customer-summary.math.ts:141-151 | 1 March 50 is read back as 1 March 1950 |
| BangkokCalendar.MonthBoundsTileIff | src/modules/analytics/customer-summary.math.ts:153-158 | consecutive month bounds meet with no millisecond between or shared, except at the turns of the years -1 and 99 |
| BangkokCalendar.YearIsItsMonths | src/modules/analytics/customer-summary.math.ts:160-167 | January's start and December's end are the year's bounds |
| BangkokCalendar.MonthBoundsCut | src/modules/analytics/customer-summary.math.ts:126-158 | an instant of any year is before, in or after a month's bounds as its Bangkok calendar month is before, at or after the month they are computed for, 1900 later for years 0 to 99 |
| BangkokCalendar.InMonthBoundsIff | src/modules/analytics/customer-summary.math.ts:126-158 | from the year 1 on an instant lies in a month's bounds if and only if its Bangkok parts name that month; for no instant before the year 1 do both hold |
| TimeSincePurchase.TimeSinceIsExactIff | src/modules/analytics/customer-summary.math.ts:77-109 | for any two instants there is a result if and only if the purchase is not later; last date plus months plus at most 30 days is the as-of date if and only if, from the year 1 on, the count does not cross into January of the year 100, and, before it, both dates are of one year and no leap day is miscounted; from the year 1 on months never clamp and the day clamp fires only there |
| TimeSincePurchase.LeftoverDays | src/modules/analytics/customer-summary.math.ts:97-106 | from the clamped anchor to the as-of date is never backwards and never a whole month |
| TimeSincePurchase.TotalDaysIs | src/modules/analytics/customer-summary.math.ts:85 | the whole days are the elapsed milliseconds over 86400000, which is the calendar-day difference, one less when the time of day is not reached |
| TimeSincePurchase.MonthsAreMaximalIff | src/modules/analytics/customer-summary.math.ts:89-92 | one more month would overshoot, except exactly when a clamped day would land on the as-of date |
| TimeSincePurchase.TimeSinceIncreasesIff | src/modules/analytics/customer-summary.math.ts:77-109 | each later as-of day gives a strictly greater (months, days) if and only if it does not cross into January of the year 100 with the month count unchanged |
| TimeSincePurchase.EndOfJanuary | src/modules/analytics/customer-summary.math.ts:89-106 | 31 January to 28 February is 0 months 28 days although a month later is 28 February |
| TimeSincePurchase.CrossingLosesDays | src/modules/analytics/customer-summary.math.ts:97-106 | 15 December 99 to 10 January 100 counts 0 days of 26 |
| TimeSincePurchase.EraLosesDays | src/modules/analytics/customer-summary.math.ts:87-106 | 15 December of the year 0 to 10 January of the year 1 counts 0 days of 26 |
| CustomerCohorts.NewCustomersAre | src/modules/analytics/analytics.service.ts:446-461 | the grouped minimum query counts customers by the end of the month who were none before its start |
| CustomerCohorts.NewAndOldPartition | src/modules/analytics/analytics.service.ts:413-488 | new and old customers partition the buyers of a period |
| CustomerCohorts.CustomersGrowByTheNew | src/modules/analytics/analytics.service.ts:432-461 | the total at the end of a period is the total before it plus the new customers |
| CustomerCohorts.ReturningBoughtBefore | src/modules/analytics/analytics.service.ts:491-532 | returning buyers are among the buyers of the prior year |
| CustomerCohorts.RetentionRange | src/modules/analytics/customer-summary.math.ts:5-22 | the repeat rate is in 0 to 1; the lifetime is defined exactly below rate 1, is at least 12 months and is a year over the share of buyers lost |
| CustomerCohorts.MonthOrdersByBangkokCalendar | src/modules/analytics/analytics.service.ts:413-426 | for every year, the orders counted for a month are those of the store, with a customer and one of five statuses, whose Bangkok calendar month it is, 1900 later for years 0 to 99 |
| CustomerCohorts.LabelMatchesSets | src/modules/analytics/customer-summary.math.ts:111-124 | the label computed from a customer's first purchase agrees with membership in the counted sets |
| CustomerCohorts.SummaryIsGivenIff | src/modules/analytics/analytics.service.ts:395-406 | the checks on year, month, store and creation amount to: the month has begun by now and had not ended before the store was created, instants before the year 1 read as the years they are written; which error is given otherwise |
| CustomerCohorts.RetentionIs | src/modules/analytics/analytics.service.ts:407-537 | for the years the service accepts: repeat rate times last calendar year's buyers is how many of them bought again in this one, up to now when it is the current year; the lifetime follows from the two numbers |
| CustomerCohorts.CountsAre | src/modules/analytics/analytics.service.ts:404-488 | each count of a summary is that of the orders, buyers, customers, new and old buyers that the Bangkok calendar puts in the month, up to its end or before it |
| CustomerCohorts.SummaryIsConsistent | src/modules/analytics/analytics.service.ts:389-552 | for any order table: new plus old equals buyers, buyers exceed neither the orders nor the total, each rate times its base gives its count back, all rates are in range |
| CustomerCohorts.TotalsFollowNewCustomers | src/modules/analytics/analytics.service.ts:432-461 | next month's total is this month's plus next month's new customers, also over the turn of the year |
| Phone.NormalizeIsIdempotent | src/common/utils/phone.util.ts:26-40 | normalising twice is normalising once, on every string |
| Phone.AcceptedFormatsAgree | src/common/utils/phone.util.ts:4-40 | nine subscriber digits without a leading zero behind 0, 66, 660, +66 or nothing have one local form, whatever separators and further digits there are |
| Phone.ForeignNumberIsKept | src/common/utils/phone.util.ts:30-32 | a number with `+` and another country code is kept as typed |
| Phone.ShortNumberIsKept | src/common/utils/phone.util.ts:34-39 | text with fewer than nine digits is kept as typed |
| Phone.DigitsAre | src/common/utils/phone.util.ts:5 | each character counts when it is a digit and only then |
| Text.TrimIs | src/common/utils/phone.util.ts:27 | trimming takes off the white space at both ends and nothing else |
| Phone.LookupIsComplete | src/common/utils/phone.util.ts:43-54 | a lookup misses no stored phone with the same normal form |
| Phone.LookupIsSoundIff | src/common/utils/phone.util.ts:43-54 | exactly which looked-up values have the same normal form |
| Phone.AnotherNumberIsFound | src/common/utils/phone.util.ts:43-54 | looking up `0012345678` matches a stored phone of another normal form |
| Customers.CustomerRepository.FindActiveByPhone | src/database/repositories/customer.repository.ts:29-41 | returns some live customer that the lookup matches, or none exactly when there is none |
| Customers.CustomerRepository.FindOtherActiveByPhone | src/database/repositories/customer.repository.ts:43-49 | the same with one customer left out, including that it gives up when that one is found first |
| Customers.CustomerRepository.CreateOrUpdate | src/database/repositories/customer.repository.ts:71-87 | updates the one found or inserts one, and keeps one customer per phone |
| Customers.CustomerRepository.SignUp | src/modules/auth/auth.service.ts:209-255 | signs in the active customer found, replaces one whose deletion was asked for more than the retention period ago, turns away the others, inserts when there is nobody; one customer per phone throughout |
| Customers.CustomerRepository.UpdatePhoneAsAdmin | src/modules/customers/customers.service.ts:205-222 | changes only to a phone nobody else has; an equal normal form is left as stored; one customer per phone throughout |
| Customers.WriteKeepsOnePerPhone | src/database/repositories/customer.repository.ts:71-87 | storing a normalised phone that no other live customer has keeps all customers distinct after normalisation |
| Customers.NobodyFound | src/database/repositories/customer.repository.ts:29-41 | after an empty lookup only a letter-for-letter equal phone can be left, which the unique index refuses |
| Customers.SomebodyFound | src/database/repositories/customer.repository.ts:29-41 | after a lookup that found one customer, also one of another number, any other with this number has the very same text |
| Otp.RunKeepsInv | src/modules/auth/auth.service.ts:125-207 | over every run of sends, verifications and phone changes: order, rate limit, one unused code, attempt counts and reasons for use all hold |
| Otp.AtMostOneUnused | src/modules/auth/auth.service.ts:147-157 | no run leaves a phone two unused codes |
| Otp.AtMostThreeCodes | src/modules/auth/auth.service.ts:128-141 | at most three codes in any 300000 milliseconds of any run |
| Otp.CodeIsSingleUse | src/modules/auth/auth.service.ts:186-207 | a code is accepted at most once, by `verifyOtp` or by a phone change; all comparisons with it are at most the limit plus the phone changes that failed on it |
| Otp.LimitBoundsAll | src/modules/auth/auth.service.ts:193-207 | on runs in which no phone change fails, all comparisons with a code are at most the limit |
| Otp.ChangesCompareWithoutBound | src/modules/users/users.service.ts:182-210 | for every n there is a run at one instant with one code and n comparisons with it: failed phone changes have no bound |
| Otp.UsableCodeIff | src/modules/auth/auth.service.ts:177-191 | the code a verification looks at is exactly the last issued, less than five minutes old, never accepted one that was compared fewer times than the configured limit, or than once |
| Otp.IssuedCodeIsFound | src/modules/auth/auth.service.ts:147-184 | a code just issued is the one looked at until it expires, and not afterwards |
| Otp.ComparisonsAreBounded | src/modules/auth/auth.service.ts:128-207 | in any five minutes of any run, all comparisons for a phone are at most four times the limit plus its failed phone changes of that time |
| Otp.BoundIsReached | src/modules/auth/auth.service.ts:128-207 | for any limit and any five minutes some run without phone changes makes four times the limit comparisons for a phone in them: the bound is sharp |
| Otp.AuthService.SendOtp | src/modules/auth/auth.service.ts:125-165 | the step refines the state machine and keeps its invariant; a code is sent exactly when fewer than three are less than five minutes old, then stored for five minutes with the phone's other codes marked as used |
| Otp.AuthService.VerifyOtp | src/modules/auth/auth.service.ts:167-207 | the step refines the state machine and keeps its invariant; true exactly when the code looked at accepts, which is then used up; a failure is counted and locks the code at the limit |
| Otp.AuthService.UseForPhoneChange | src/modules/users/users.service.ts:182-210 | the same for the other path that uses codes, whose failures are not counted |
| Inventory.SellSucceedsIff | src/database/repositories/order.repository.ts:125-156 | the line-by-line loop succeeds if and only if every variant exists and its summed demand fits |
| Inventory.SellTakesDemand | src/database/repositories/order.repository.ts:125-156 | on success each stock drops by exactly the summed demand |
| Inventory.SellWritesRows | src/database/repositories/order.repository.ts:145-155 | on success each line has its ledger row, in order, with the level that it left |
| Inventory.PostBalances | src/database/repositories/product.repository.ts:134-155 | writing stock and ledger row together keeps stock equal to initial stock plus ledger, and each row's level the running sum |
| Inventory.SellBalances | src/database/repositories/order.repository.ts:125-156 | so does creating an order |
| Inventory.RestoreBalances | src/modules/inventory/inventory.service.ts:60-106 | so does a restore |
| Inventory.RestoreGivesBack | src/modules/inventory/inventory.service.ts:60-106 | a restore gives each variant not yet restored for the order the quantity of its first line, others nothing |
| InventoryRuns.RunBalances | src/modules/inventory/inventory.service.ts:18-109 | after every run the books balance and no stock is negative |
| InventoryRuns.StockIsConserved | src/modules/inventory/inventory.service.ts:18-109 | after every run each stock is the initial stock, plus its accepted adjustments, less what the created orders asked for, plus what restores gave back |
| InventoryRuns.SellFiles | src/database/repositories/order.repository.ts:145-155 | a sale files against its order exactly its demand, and nothing against any other |
| InventoryRuns.RunSettles | src/modules/inventory/inventory.service.ts:48-109 | after every run an order, if no adjustment was filed against it, is sold in full per variant and returned not at all or by one of its lines |
| InventoryRuns.RestoredOrderNetsToZeroIff | src/modules/inventory/inventory.service.ts:18-46 | after any overlapping restores a whole-order restore makes the net effect zero if and only if the variants are distinct, each line back once |
| InventoryRuns.FurtherRestoresDoNothing | src/modules/inventory/inventory.service.ts:14-46 | after any run at all, once restored, every further restore of the order changes nothing |
| InventoryRuns.FiledReturnBlocksRestore | src/modules/inventory/inventory.service.ts:61-72 | a return filed against an order by an adjustment keeps its stock from coming back |
| InventoryStore.Store.CreateOrder | src/database/repositories/order.repository.ts:69-170 | refines the run model; created exactly when each variant exists and serves the summed demand, with the demand taken and a ledger row per line; otherwise nothing is changed |
| InventoryStore.Store.UpdateInventory | src/database/repositories/product.repository.ts:115-157 | refines the run model; exactly when the variant exists and stays at or above zero the stock changes by the amount and one ledger row records it with its level; otherwise nothing is changed |
| InventoryStore.Store.RestoreStockForItems | src/modules/inventory/inventory.service.ts:48-109 | the loop restores line by line what is not yet restored, by the quantity of the first line; the flag says whether a row was written |
| InventoryStore.Store.RestoreOrderStock | src/modules/inventory/inventory.service.ts:18-25 | refines the run model's whole-order restore |
| InventoryStore.Store.RestoreItemStock | src/modules/inventory/inventory.service.ts:32-46 | refines the run model's item restore, the empty id list included |
| Cart.MergeAddsUp | src/modules/cart/cart.service.ts:266-281 | merged lines name what either cart named, once each, with summed quantities |
| Cart.SettledLines | src/modules/cart/cart.service.ts:71-133 | a cart that was read has just its available lines, distinct, each with its quantity, or with the stock where some is left and less than that |
| Cart.WarningsAre | src/modules/cart/cart.service.ts:71-127 | a read warns of just the lines that it removes or caps, each with its own reason |
| Cart.SettleIsIdempotent | src/modules/cart/cart.service.ts:129-133 | reading a second time changes nothing and warns of nothing |
| CartService.Service.ResolveCart | src/modules/cart/cart.service.ts:37-60 | finds the owner's cart or creates an empty one, others untouched |
| CartService.Service.CapQuantitiesToStock | src/modules/cart/cart.service.ts:107-127 | the loop sets each line above the stock that is left to that stock, leaves the others, and warns of exactly the lines it changed |
| CartService.Service.GetCart | src/modules/cart/cart.service.ts:129-133 | stores and returns the settled lines with all warnings in order; other carts are as before |
| CartService.Service.AddItem | src/modules/cart/cart.service.ts:135-194 | each refusal exactly when its cause holds, with lines kept; otherwise the quantity is added, shown whole, and the cart settled |
| CartService.Service.UpdateItem | src/modules/cart/cart.service.ts:196-225 | the line has the quantity asked for, or the stock where less is left, or is gone for none; every other line is as a read leaves it; an unknown line changes nothing |
| CartService.Service.MergeLine | src/modules/cart/cart.service.ts:266-281 | comparing with the loaded lines only still adds to the right line |
| CartService.Service.MergeGuestCart | src/modules/cart/cart.service.ts:254-287 | the merge loop gives the settled sum of both carts, deletes the guest cart and reports the warnings of that sum |
| CartService.MergedCart | src/modules/cart/cart.service.ts:254-287 | after login each available variant of either cart has min(sum, stock), or the sum when no stock is left; others are gone; other carts are as before |
| CartService.SecondMergeChangesNothing | src/modules/cart/cart.service.ts:254-287 | a second merge changes no cart and gives no warning |
| CartService.AddedIsShown | src/modules/cart/cart.service.ts:172-193 | what was just added is shown whole, never capped |
| SeededShuffle.NextIsBijective | src/common/utils/seeded-shuffle.ts:9-12 | the generator step is a bijection on 32-bit states, with its inverse given |
| SeededShuffle.OneBadState | src/common/utils/seeded-shuffle.ts:9-12 | exactly one state draws the largest number next |
| SeededShuffle.SwapIndexRange | src/common/utils/seeded-shuffle.ts:11-15 | a draw is within the prefix except for the largest state, which draws one past it |
| SeededShuffle.EveryIndexIsDrawn | src/common/utils/seeded-shuffle.ts:11-15 | every place of the prefix is drawn by some state |
| SeededShuffle.HashLoop | src/common/utils/seeded-shuffle.ts:3-7 | the loop folds the seed's code units into a 32-bit state |
| SeededShuffle.Shuffle | src/common/utils/seeded-shuffle.ts:1-20 | the in-place swaps compute the specified sequence, growing by one where the source does |
| SeededShuffle.ShuffleTrace | src/common/utils/seeded-shuffle.ts:9-17 | what that is, swap by swap: the states follow the generator from the hash, and each state draws the place that the next one from the end is exchanged with |
| SeededShuffle.ShuffleContents | src/common/utils/seeded-shuffle.ts:1-20 | the multiset of the result: the items, and one `undefined` more in the one bad case |
| SeededShuffle.ShuffleIsPermutationIff | src/common/utils/seeded-shuffle.ts:1-20 | a permutation if and only if not both two or more items and the bad state |
| SeededShuffle.BadSeedExists | src/common/utils/seeded-shuffle.ts:3-7 | a seed that hashes to the bad state |
| AuditPurge.AuditLogsService.PurgeExpired | src/modules/audit-logs/audit-logs.service.ts:97-116 | deletes min(limit, expired) rows, all before the cutoff, none newer than an expired row left, and fewer than the limit only when none is left |
| AuditPurge.Process | src/modules/audit-logs/audit-log-retention.processor.ts:29-36 | the do-while ends, keeps exactly the rows at or after the cutoff and those that arrived meanwhile, in n / 1000 rounded up plus one calls; after every call only expired rows are gone, none newer than an expired row left |
| AuditPurge.BatchStep | src/modules/audit-logs/audit-log-retention.processor.ts:34-36 | a further batch, and rows arriving after it, keep the table partly purged: expired rows gone oldest first, all other rows there |

## Left out

- TimeSincePurchase.TimeSinceIncreasesIff: last purchases dated before the year 1 are not covered; their counts are wrong over any turn of the year (`TimeSinceIsExactIff`).
- SentPlaceholders.SentSubjectAndTextAreCleanIff: the text sent for a blank text template, which is the plaintext conversion of the merged body, is not covered.
- InventoryRuns.RunSettles: runs with an adjustment filed against the order itself are excluded, because such a return would block the restore (`FiledReturnBlocksRestore`); nothing in the repository calls the adjustment at all.
- InventoryRuns.RestoredOrderNetsToZeroIff: for the same runs as `RunSettles`.
- CartService.Service.UpdateItem: a line is addressed by its variant, unique in a cart, in place of its row id.
- AuditPurge.Process: rows that arrive while the job runs are at or after the cutoff.
- Otp.AuthService.UseForPhoneChange: the uniqueness check before it and the phone write after it are separate steps that are not joined to the code's state.
- The HTML block list, validation warnings, tag stripping and white-space clean-up of the plaintext fallback, and the preview path.
- Property names that every JavaScript object inherits, which the source's `in` test also finds among the variables.
- Strings are sequences of Unicode scalar values, so lone surrogates and lengths in UTF-16 units are not modelled, except for the shuffle's seed, which is a sequence of code units.
- Time zone history before the fixed offset of seven hours, leap seconds and the range limit of `Date`.
- Rounding: rates are rationals, and the shuffle's division is exact.
- Revenue and average order value, which are sums of amounts without further structure.
- Interleavings inside a step: the restore check before its row lock, and the cache load between its read and its write.
- Hashing, tokens, SMS, mail delivery, payment and the merging of guest orders.
- Direct stock writes of the product service that post no ledger row, and the order service's own creation path.
- The error for a cart call without any identity, and the removal of lines by id.
- The `required` and `sample` fields of the placeholder registry, and its locale texts.

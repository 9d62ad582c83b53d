# Lava-jato booking model

A Dafny model of the booking logic in a car-wash (lava-jato) web application.
Clients browse the service catalogue and book a service on one of nine fixed
daily start times. The administrator blocks days or time ranges, watches the
appointment statistics and moves appointments between the four statuses.

The model follows the pages that hold that logic:

- **Booking page** (`src/pages/Agendar.tsx`).
  - The slot roster.
  - The taken list built from the day's appointments, and the blocked slots.
  - The availability test.
  - The end-time arithmetic and the record the submit handler inserts.
  - The date window and the three-step wizard.
- **Client dashboard** (`src/pages/Dashboard.tsx`): the upcoming and history lists, and the access guard.
- **Admin panel** (`src/pages/Admin.tsx`).
  - The profile join and the statistics cards.
  - The revenue tab and the status update.
  - The access guard.
- **Sign-up form** (`src/pages/Cadastro.tsx`): the password check, the schema's field rules, the message shown, and the normalised payload.
- **Catalogue** (`src/pages/Servicos.tsx`, `src/components/landing/Services.tsx`): active services cheapest first, the duration label, and the booking link.
- **Row types** (`src/lib/supabase.ts`).

Each page fetches rows from its datastore. In the model those rows are input
sequences, and each query that may return no data is an `Option`. "Today" is
a parameter.

## Modules

The shared helpers:

- `Wrappers`: `Option`.
- `Seqs`: filter, stable sort, sums, take.
- `Decimal`: `String(n)`, `padStart`, `Number` on digit runs.
- `Text`: `split`, `slice`, string order, `trim`, `toUpperCase`.
- `Clock`: "HH:MM" texts and the end-time arithmetic.

The domain modules:

- `Records`: the row types.
- `Availability`: the roster and the availability test.
- `Catalogue`: the catalogue query and the booking link.
- `Booking`: the wizard and submit.
- `Duration`: the duration label.
- `Dashboard`: the client dashboard lists.
- `Routes`: the access guards.
- `Admin`: the admin panel.
- `Signup`: the sign-up form.

## How the source is encoded

- **Dates.** A calendar date is a day number (`Records.Day`).
  - The booking page and the admin panel compare `yyyy-MM-dd` texts, a spelling that is injective and order-preserving on days.
  - The dashboard compares `Date` objects, which the model reads as calendar days.
- **Times.** Times are strings. JavaScript's `<` and `>=` on strings are written out as `Text.LexLess` and `Text.LexAtLeast`. `Clock.ClockOrderAgrees` shows that on well-formed "HH:MM" texts this order is the order of minutes since midnight.
- **Remainder.** JavaScript's `%` truncates, while Dafny's is Euclidean. The model uses `Clock.JsRem`, so a negative end total is spelled the way the page spells it.
- **Numbers.** Integers are unbounded. Prices are whole cents.
- **Sign-up validation.** The form's schema is a `zod` object.
  - All its keys are checked in declaration order, and every failing rule of a key is reported.
  - The page shows the first issue.
  - The phone rule is a union. The exact empty text is accepted by its second option. Any other text reports the first option's issues.
- **Booking preconditions.**
  - `Booking.Submit` requires that a chosen time is a roster time.
  - `Booking.WizardInv` states this together with the step structure, and `Booking.RunKeepsInv` proves that every event sequence keeps it.
  - The page sets the time only from the roster buttons.

## Model

| member | source | states |
|---|---|---|
| Records.ParseStatus | src/lib/supabase.ts:30 | a status column holds exactly one of the four status texts, and reading one gives the status that writes it |
| Records.StatusRoundTrip | src/lib/supabase.ts:30 | every status is written and read back unchanged, so the four texts are distinct |
| Records.ParseRole | src/lib/supabase.ts:57 | a role is exactly "admin" or "client" |
| Records.StatusLabel | src/pages/Dashboard.tsx:15-20 | each status has its own Portuguese label, one to one |
| Records.StatusBadge | src/pages/Admin.tsx:39-44 | the destructive badge marks cancelled appointments and nothing else |
| Availability.RosterShape | src/pages/Agendar.tsx:17-20 | the roster is nine wall-clock texts on the hour, 08:00-11:00 then 13:00-17:00, strictly ascending as strings, with no 12:00 |
| Availability.TakenSlots | src/pages/Agendar.tsx:74-82 | a text is taken exactly when some pending or confirmed appointment of the day starts with it, to five characters |
| Availability.Refresh | src/pages/Agendar.tsx:69-92 | a query without data keeps the previous list; with data, the taken list and the day's blocks are replaced |
| Availability.IsSlotAvailable | src/pages/Agendar.tsx:94-106 | the early returns amount to one condition: the time is not taken, no block of the day is full-day, and no block excludes it |
| Availability.AvailableSlots | src/pages/Agendar.tsx:94-106 | the enabled buttons are the roster entries that pass the availability test, in roster order |
| Availability.AvailableAfterFetch | src/pages/Agendar.tsx:94-106 | after a fetch, a time is available exactly when no pending or confirmed booking of the day starts at it, no block of the day is full-day, and no block of the day excludes it; the booked service plays no part |
| Availability.FullDayClosesDay | src/pages/Agendar.tsx:97-98 | one full-day block leaves no time available, whatever the bookings |
| Availability.HalfOpenBlock | src/pages/Agendar.tsx:100-103 | a 10:00-11:00 block excludes 10:00 but neither 11:00 nor 09:00 |
| Availability.UnboundedBlockExcludesNothing | src/pages/Agendar.tsx:101 | a partial block with a null or empty bound changes no answer |
| Availability.ExclusionByMinutes | src/pages/Agendar.tsx:102 | on "HH:MM" bounds the string test is start <= time < end in minutes |
| Availability.ExampleDay | src/pages/Agendar.tsx:94-106 | with a confirmed 09:00 booking and a 14:00-15:00 block, every roster time except 09:00 and 14:00 is offered |
| Clock.ReadClockOfClock | src/pages/Agendar.tsx:124 | `split(':').map(Number)` reads an "HH:MM" text as its two digit pairs |
| Clock.JsRem | src/pages/Agendar.tsx:127 | the remainder is what is left after the quotient rounded towards zero, so it lies in [0, 60) for a non-negative total and in (-60, 0] for a negative one |
| Clock.EndTime | src/pages/Agendar.tsx:123-128 | for a non-negative total the stored end time reads back as hours and minutes below 60 that add up to start plus duration |
| Clock.FormatClockReadsBack | src/pages/Agendar.tsx:125-128 | a formatted non-negative total reads back as its hours and its minutes below 60 |
| Clock.EndTimeReadsBack | src/pages/Agendar.tsx:123-128 | the end time reads back as hours and minutes below 60 whose sum is start plus duration |
| Clock.EndTimeIsClock | src/pages/Agendar.tsx:126-128 | below hour 100 the end time is again an "HH:MM" text worth start plus duration |
| Clock.EndTimePastMidnight | src/pages/Agendar.tsx:126-128 | hours are not reduced modulo 24: 17:00 plus 480 minutes ends at "25:00" |
| Clock.EndTimeNegativeTotal | src/pages/Agendar.tsx:126-128 | a negative total gives "-1:-20" for -20 minutes, a text that does not denote its total |
| Clock.ClockOrderAgrees | src/pages/Agendar.tsx:102 | on wall-clock texts string order is minute order |
| Booking.Selectable | src/pages/Agendar.tsx:171-174 | the calendar's before/after bounds leave exactly today through today + 30 enabled |
| Booking.SelectableWindow | src/pages/Agendar.tsx:171-174 | a day is selectable exactly when it lies from today through today + 30, both ends included |
| Booking.Next | src/pages/Agendar.tsx:276-314 | an event that changes the chosen time sets an available one, and one that changes the day sets a selectable one |
| Booking.RunKeepsInv | src/pages/Agendar.tsx:236-356 | every event sequence keeps the wizard invariant: steps 2 and 3 have a service, step 3 a day, and a chosen time is a roster time |
| Booking.DeepLinkSelects | src/pages/Agendar.tsx:48-54 | loading the catalogue with a card's link selects that card's service and opens step 2, from any step, keeping the chosen time |
| Booking.Submit | src/pages/Agendar.tsx:108-137 | without a user the page asks for login; with service, day and time it inserts one pending row with that user, service, day and start; otherwise nothing |
| Booking.SubmittedEndTime | src/pages/Agendar.tsx:123-136 | the inserted end time reads back as start plus the service's duration, and is an "HH:MM" text below hour 100 |
| Booking.SubmitIgnoresTakenSlot | src/pages/Agendar.tsx:119-137 | submit does not re-check availability: a time taken meanwhile is still inserted |
| Duration.FormatDuration | src/pages/Agendar.tsx:164-169 | a label ends in " min" exactly below 60 minutes, contains an 'h' exactly from 60 on, and ends in 'h' exactly on whole hours |
| Duration.DurationRoundTrip | src/pages/Servicos.tsx:39-44 | every label reads back as the minutes it was printed from, so distinct durations get distinct labels |
| Duration.ShortExamples | src/components/landing/Services.tsx:38 | below an hour the minutes are printed with their sign: "45 min", "-5 min" |
| Duration.WholeHourExamples | src/components/landing/Services.tsx:41 | whole hours print without minutes: "1h", "2h" |
| Duration.MixedExample | src/components/landing/Services.tsx:37-42 | 90 minutes print as "1h 30min" |
| Catalogue.ActiveByPrice | src/pages/Servicos.tsx:17-21 | the catalogue holds exactly the active services, each as often as the table does, sorted by ascending price |
| Catalogue.CatalogueIsComplete | src/components/landing/Services.tsx:15-19 | every active service of the table is listed |
| Catalogue.BookingLink | src/pages/Servicos.tsx:97 | the link is `/agendar?service=` followed by the id |
| Catalogue.ServiceParam | src/pages/Agendar.tsx:48 | an accepted parameter is a plain value, and the link is the path followed by it |
| Catalogue.LinkRoundTrip | src/components/landing/Services.tsx:104 | the booking page reads a card's link back as that card's id |
| Catalogue.FindById | src/pages/Agendar.tsx:50 | a service is found exactly when one has the id, and what is found is the first service with it |
| Catalogue.LinkFindsService | src/pages/Agendar.tsx:48-54 | with distinct ids, following a card's link finds exactly that card's active service |
| Dashboard.Classification | src/pages/Dashboard.tsx:77-85 | no appointment is both upcoming and past; one is in neither exactly when it is cancelled and dated today or later |
| Dashboard.UpcomingList | src/pages/Dashboard.tsx:77-80 | the upcoming list holds exactly the pending and confirmed appointments dated today or later, each as often as fetched, in fetch order |
| Dashboard.PastList | src/pages/Dashboard.tsx:82-85 | the past list holds exactly the completed appointments and those dated before today, each as often as fetched, in fetch order |
| Dashboard.History | src/pages/Dashboard.tsx:172 | the history is the whole past list when it has at most six entries, else its first six |
| Dashboard.ListsNewestFirst | src/pages/Dashboard.tsx:54 | rows fetched newest day first give lists newest day first, and no past appointment left out of the history is later than one shown |
| Dashboard.ListsDisjoint | src/pages/Dashboard.tsx:77-85 | the upcoming and past lists share no appointment |
| Routes.DashboardRedirects | src/pages/Dashboard.tsx:28-38 | once loaded, a visitor without a user is sent to login and an admin to the panel; nothing happens while loading |
| Routes.AdminRedirects | src/pages/Admin.tsx:69-79 | once loaded, a visitor without a user is sent to login and a signed-in non-admin to the dashboard; at most one navigation |
| Routes.GuardsSettle | src/pages/Dashboard.tsx:28-44 | once loaded, a client ends on the dashboard, an admin on the panel and a signed-out visitor on login; the page reached fetches its data |
| Routes.DashboardIssuesBoth | src/pages/Dashboard.tsx:28-38 | an admin flag without a user makes the dashboard issue both navigations, the panel last |
| Routes.NoRedirectWhileLoading | src/pages/Admin.tsx:81-85 | while loading nobody is redirected, but the panel fetches whenever the admin flag is set |
| Admin.ProfileIndex | src/pages/Admin.tsx:102-105 | the map has a key for each user with a profile, and maps it to one of that user's profiles |
| Admin.ProfileIndexLastWins | src/pages/Admin.tsx:104 | with duplicate users, the last profile in the list wins |
| Admin.AttachProfiles | src/pages/Admin.tsx:107-113 | every row keeps its appointment and service and gets a profile of its user exactly when one exists, namely the one the map holds |
| Admin.AttachProfilesLastWins | src/pages/Admin.tsx:104-110 | a row whose user has several profiles gets the last one listed |
| Admin.ClientName | src/pages/Admin.tsx:345 | the client cell shows the profile's name when it is not empty, else "N/A" |
| Admin.CountNames | src/pages/Admin.tsx:139-142 | the count table has one entry per distinct service name, holding its number of occurrences, in the order the names are first met |
| Admin.TopService | src/pages/Admin.tsx:143 | an empty table gives '-', and any other answer is a name in the table |
| Admin.TopServiceFirstMostCounted | src/pages/Admin.tsx:143 | the top service is the first entry with the greatest count, so ties go to the name counted first |
| Admin.TopServiceIsMostBooked | src/pages/Admin.tsx:139-143 | the top service is the most frequent service name met first in the rows, or '-' when there are no rows or that name is empty |
| Admin.EarliestIsUnique | src/pages/Admin.tsx:143 | only one name is the most frequent one met first, so the top service is determined |
| Admin.TopServiceTie | src/pages/Admin.tsx:143 | between two names with equal counts the first one wins |
| Admin.Revenue | src/pages/Admin.tsx:145-146 | rows in other statuses add nothing, and one completed row adds its service's price, or 0 without a service |
| Admin.RevenueAppend | src/pages/Admin.tsx:145-146 | revenue and completed count over two batches of rows add up |
| Admin.RevenueNonNegative | src/pages/Admin.tsx:146 | with non-negative prices the revenue is non-negative |
| Admin.ComputeStats | src/pages/Admin.tsx:135-155 | the cards count all rows, the clients, and the completed rows with their summed prices, with today's count bounded by the total; a row without its service makes the computation fail |
| Admin.TodayCount | src/pages/Admin.tsx:136-155 | the today card is the number of row positions dated today, and the completed card the number of positions holding a completed row |
| Admin.TopServiceCard | src/pages/Admin.tsx:139-153 | the top-service card is '-' without rows, and otherwise the most booked service name met first ('-' when that name is empty) |
| Admin.FetchData | src/pages/Admin.tsx:87-158 | a query with data replaces its list (the appointments with their profiles attached), one without keeps the old list; computed statistics replace the cards and stop the spinner, failed ones leave both as they were |
| Admin.RevenueTabMatchesCards | src/pages/Admin.tsx:483-501 | after a fetch whose appointments query returned data, every row with its service, the revenue tab lists as many rows as the completed card counts, and their prices add up to the revenue shown |
| Admin.TabOutlivesCards | src/pages/Admin.tsx:107-155 | an appointments query without data keeps the old rows but zeroes the cards, so a tab with completed rows disagrees with a completed count of 0 |
| Admin.TabUnderStaleCards | src/pages/Admin.tsx:107-143 | a completed row without its service replaces the rows, then the statistics throw and the old cards and spinner stay, so the state holds the new rows under the old cards |
| Admin.UpdateStatus | src/pages/Admin.tsx:160-181 | a failed update changes nothing; otherwise every row with the id gets the new status, whatever its old one, and every other row and field is unchanged |
| Admin.UpdateLastWins | src/pages/Admin.tsx:359-371 | of two updates to a row the later wins, and repeating an update changes nothing |
| Admin.CompletingAddsRevenue | src/pages/Admin.tsx:145-154 | marking a row completed raises the revenue by its price and the completed count by one |
| Signup.Bounds | src/pages/Cadastro.tsx:13 | a length rule passes exactly within its bounds; a short value reports the field's message first, a long one the library's maximum message |
| Signup.TooLongMessages | src/pages/Cadastro.tsx:14-15 | the library's maximum message spells the bound in decimal |
| Signup.FieldIssues | src/pages/Cadastro.tsx:12-20 | every issue a field's rules report names that field |
| Signup.FieldAccepted | src/pages/Cadastro.tsx:12-20 | each field passes exactly when its trimmed length, or the untrimmed password, is within its bounds; an empty phone passes |
| Signup.AcceptedIff | src/pages/Cadastro.tsx:12-20 | the schema accepts a form exactly when every field is within its bounds |
| Signup.Submit | src/pages/Cadastro.tsx:40-58 | a mismatched confirmation is reported first; otherwise the form is invalid exactly when the schema reports an issue, and the first issue's message is shown |
| Signup.FirstIssueShown | src/pages/Cadastro.tsx:50-58 | the message shown is the first broken rule of the first failing field, in schema order |
| Signup.MismatchFirst | src/pages/Cadastro.tsx:40-48 | a mismatch wins over every schema issue, and a blank form shows the name rule |
| Signup.PayloadNormalised | src/pages/Cadastro.tsx:61-73 | the payload is the trimmed form with the plate upper-cased and the password as typed; the phone is absent exactly when the field is empty; every length is within its bounds |
| Signup.BlankPhoneRejected | src/pages/Cadastro.tsx:15 | a phone of blanks fails the minimum while an empty phone passes |
| Seqs.Filter | src/pages/Admin.tsx:145 | `filter` keeps exactly the elements that pass the test, each as often as the input holds it, in input order |
| Seqs.FilterLength | src/pages/Admin.tsx:136 | the filtered list is as long as the number of input positions whose element passes, so a card's `.length` counts rows |
| Text.TrimSpec | src/pages/Cadastro.tsx:62-71 | trimming removes white space at both ends and nothing else |
| Text.ToUpperLeavesNoLower | src/pages/Cadastro.tsx:71 | the upper-cased plate has no lower-case ASCII letter, and a character is an ASCII letter exactly when its upper-cased one is an upper-case letter |
| Text.LexLess | src/pages/Agendar.tsx:102 | no text is below itself, a proper prefix is below the text, and nothing is below a prefix of itself |
| Text.LexLessFirstDifference | src/pages/Agendar.tsx:102 | `a < b` exactly when a is a proper prefix of b or the two first differ where a has the smaller character (code point) |
| Decimal.PadTwoValue | src/pages/Agendar.tsx:128 | padding a spelled number to two places keeps its value |

## Left out

- Datastore access is not modelled. This covers queries, the insert, the update and the account sign-up. Fetched rows are inputs, the inserted row is a result, and a failed update is a flag.
- The gap between reading availability and inserting a booking is not modelled. The model makes no claim that double booking is prevented.
- Cross-slot blocking for long services is not modelled, because the pages do not do it.
- Status-transition rules are not modelled, because the pages have none.
- Submit-time rejections are not modelled, because the handler makes none. It checks only that a user, a service, a day and a time are present (src/pages/Agendar.tsx:108-119). It does not reject a day outside the window, an inactive service, an off-roster time or a time already taken (`Booking.SubmitIgnoresTakenSlot`).
- The current date is a parameter. The dashboard builds dates with `new Date('yyyy-MM-dd')`, which reads them as UTC, then compares them with local midnight. That skew is not modelled. Days are compared as calendar days.
- Currency formatting (`Intl.NumberFormat`) is not modelled, and neither is date formatting with date-fns. These are foreign calls.
- Prices are whole cents rather than floating-point numbers.
- Durations are whole minutes. `duration_minutes` is a JavaScript number, and a fractional value would print as "45.5 min" or give an end time such as "08:45.5". The model does not cover that.
- Rendering, toasts, spinners and effect sequencing are not modelled. The navigations are kept only as the targets they name.
- The static markup in `src/components/landing/Header.tsx`, `Hero.tsx`, `Footer.tsx`, `Features.tsx` and `src/pages/Index.tsx` holds no logic. Those files are not part of this model.
- The admin panel's services query is ordered by name. `Admin.FetchData` takes that list as the query returns it.
- String lengths and string order use characters (code points). JavaScript counts and compares UTF-16 code units. The two differ outside the Basic Multilingual Plane, in length and also in order: "\u{FF61}" is below "\u{1F600}" here, but not in JavaScript. The times compared in the model are ASCII "HH:MM" texts, where the two agree.
- Signup.Submit: the schema's e-mail test is the parameter `isEmail`, not the library's regular expression.
- Text.UpperChar: upper-cases the ASCII letters only. Other letters, such as accented ones, are kept as typed.
- Clock.ReadClock: reads only runs of digits. Every other text, where `Number` would give NaN or read signs, blanks or exponents, is None. Roster times are always digit runs.
- Booking.Submit: requires the chosen time to be a roster time. The page has no such check, but it sets the time only from roster buttons, and `Booking.RunKeepsInv` proves the invariant.
- Catalogue.ServiceParam: handles only values that need no URL decoding and links without further parameters.
- Admin.RevenueTabMatchesCards: holds only after a fetch whose appointments query returned data with every row's service joined. Without appointments data the page shows the old rows under zeroed cards (`Admin.TabOutlivesCards`). With a row missing its service, the state holds the new rows under the old cards (`Admin.TabUnderStaleCards`). The page cannot render that state: the spinner stays on a first load (src/pages/Admin.tsx:157, 190), and later the row's cells fail on `service.name` and `service.price`. Render-time failures are not modelled.
- Catalogue.ActiveByPrice: orders equal prices as the table does. The datastore leaves that order open.
- Admin.TopService: counts in first-insertion order. `Object.entries` lists integer-like names first, and a name such as `__proto__` is special. Neither is modelled.
- Dashboard.UpcomingList: compares calendar days, without the UTC/local skew described above.

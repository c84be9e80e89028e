# GeekVPN, verified

A Dafny model of the parts of GeekVPN whose behaviour is easiest to get wrong
and hardest to see in a test: the background worker and its lock, the Jalali
calendar, the text fields of the front ends, three data migrations, the release
sources with their updater and announcements, and the price of a volume a
customer types. Every module names the source file it models; what is pure
there is functions here, and what changes state there is methods and classes
proved against such functions.

| modules | what they model |
|---|---|
| `TickLock`, `Countdown`, `Worker`, `Fleet`, `ReleaseNotices` | the worker: the lock around a tick, one loop and any number of them, the three counters, the table of periodic jobs, the announcement of new app versions |
| `Calendar`, `Gregorian`, `Jalali`, `KnownDays` | the conversion of the front ends and of the bot, against two calendars turned one day at a time |
| `Options`, `DivMod`, `Texts`, `JsText`, `Numerals`, `PersianText`, `CountdownText`, `Slugs`, `ChatIds` | what the front ends print, read and let a user type |
| `Sql`, `ShopCustomers`, `ClaimedAccounts`, `ReferralBackfill` | migrations 0009, 0027 and 0028 over arbitrary tables |
| `PyText`, `Json`, `Versions`, `DesktopReleases`, `AppReleases`, `ReleaseTexts`, `ReleaseCache` | reading a release, caching it, answering the updater |
| `StableSort`, `PackageTerms`, `CustomVolume` | the volumes a customer may type and what they cost |

What the source cannot decide for itself is a parameter: the clocks, what other
processes did to a key, how GitHub answered, which jobs raise and how long they
take, the order in which the database produces rows, the database's collation,
lower-casing.

## What the proofs say about the code

Where the code and its comments disagree, the model follows the code.

- A counter of the worker fires every `ceil(interval / 30) + 1` ticks, because
  the tick that fires it costs one more. The provisioning interval of 45 seconds
  is therefore 90 seconds of waiting, not the "under a minute" of
  `worker.py:92-95`; usage is read every 21 ticks and lapsed services are swept
  every 11 (`Countdown.NextFiring`, `Worker.AskedIsDue`).
- The counters are reset whether or not the lock was obtained, so a turn that
  falls on a skipped tick is lost (`Worker.LostTurnsStayLost`).
- Every usage turn is a provisioning turn too and comes after it in the same
  `try`: while provisioning raises, usage is never read
  (`Worker.UsageSyncBehindProvisioning`). The periodic jobs are starved for two
  ticks in a row at most (`Worker.BoundedStarvation`).
- The lock's delete does not look at who holds the key. Mutual exclusion holds
  while ticks end within the TTL, a second worker gets in exactly when one does
  not, and the late delete then lets in a third (`TickLock`). The worker's loops
  take part in that protocol however they interleave (`Fleet`).
- `toJalali` is a port of the bot's function, but JavaScript's `%` goes negative
  where Python's does not. The two agree from 20 March 1600 on, and before that
  only on days a whole number of 33-year cycles away (`Jalali.ToJalali`); the
  bot's is right for every date (`Jalali.ToJalaliInBot`).
- `abi_of` takes what follows the last underscore, so `x86_64`, a known ABI, is
  never recognised (`AppReleases.AbiOfIff`).
- A second Persian decimal point survives `normalizeInput`, because `replace`
  with a text takes the first only; reading twice is reading once exactly for
  texts with at most one (`PersianText.ReadingTwice`).
- A pass over the periodic jobs reads the clock once and runs them one after
  another, so a job starts later than its stamp assumes when those before it take
  their time. Two starts may be closer than the interval, by no more than that
  wait: a two-minute backup leaves 3480 seconds between two runs of the hourly
  cleanup (`Worker.JobSpacing`, `Worker.SlowBackup`).
- The cache holds the answer of the call that looked last exactly as long as
  calls write in the order in which they looked. Of two overlapping ones the one
  that looked first may write last, and the older release is then served for the
  whole TTL (`ReleaseCache.FreshIffInOrder`, `ReleaseCache.OlderAnswerStays`).
- With a mirror, one address that `urlsplit` refuses makes the whole manifest
  unreadable, other platforms included (`DesktopReleases.LoneBracketRaises`).
- A longer term may refuse the smallest volume the Mini App lets a customer type
  (`CustomVolume.LongerTermMayRefuse`).
- If the first version ever seen of an app cannot be read as one, no later
  version of it is announced (`ReleaseNotices.UnreadableFirstSilences`).
- Deleting a reseller sets its customers' shop to NULL. The index of migration
  0009 refuses that exactly when one of them is a platform customer as well
  (`ShopCustomers.Users.DeleteReseller`).
- Migration 0028 fails as a whole exactly when one of the ids it generates is
  already taken, which cannot be where every id of that form is its own row's
  (`ReferralBackfill.OwnBackfillsStay`). An account with several rows gets the
  referrer of whichever row the database comes to first
  (`ReferralBackfill.FirstOneStays`).
- In the chat id field typing and pasting come to the same except after text
  that was dropped entirely: then only typing keeps a following minus
  (`ChatIds.TypingIsPastingUnless`).
- A valid slug of a single character is never sent as typed
  (`Slugs.TypedSlugIsKept`).
- A typed volume that is sold as a package costs what the package costs exactly
  when no package with no more in it is dearer (`CustomVolume.OwnPackage`,
  `CustomVolume.SmallerIsDearer`).

## Model

| member | source | states |
|---|---|---|
| `TickLock.MutualExclusion` | src/geekvpn/entrypoints/worker.py:249-269 | Over every run of any number of workers with crashes, restarts, failed deletes and expiries in which ticks end within the TTL, at most one worker is between the `set nx` and the delete |
| `TickLock.DeletesOwnLock` | src/geekvpn/entrypoints/worker.py:267-269 | In such a run a delete always finds the deleting worker's own live key, although it does not look |
| `TickLock.SecondEntersIffOverrun` | src/geekvpn/entrypoints/worker.py:114-117 | The hypothesis is exact: after any timely run a second worker that asks later joins the first if and only if the first has overrun the TTL |
| `TickLock.NextEntersIff` | src/geekvpn/entrypoints/worker.py:249-269 | How the one inside leaves decides when the next gets in: after a delete at once, after a failed delete or a crash if and only if 300 seconds are over |
| `TickLock.OverrunLetsInAThird` | src/geekvpn/entrypoints/worker.py:267-269 | A concrete run: after one overrun the late delete removes the second worker's key and a third joins it |
| `TickLock.CrashedLockExpires` | src/geekvpn/entrypoints/worker.py:114-117 | A TTL after a worker died no live key is its own, timely ticks or not, unless it started again |
| `TickLock.NoLockOutlivesTheTtl` | src/geekvpn/entrypoints/worker.py:250-254 | From every state of every run, once a TTL has passed the next worker to ask gets in |
| `Countdown.FiresOnMultiples` | src/geekvpn/entrypoints/worker.py:201-222 | A hand-kept counter fires on exactly the multiples of `ceil(interval/tick) + 1`, for every interval and tick |
| `Countdown.NextFiring` | src/geekvpn/entrypoints/worker.py:201-222 | Two firings are one period apart with none between, and the waiting between them is at least the interval and a tick and less than the interval and two |
| `Worker.Worker.constructor` | src/geekvpn/entrypoints/worker.py:170-192 | The table of jobs has distinct names and no negative interval; only `auto_renew` starts with a stamp |
| `Worker.Worker.RunPeriodic` | src/geekvpn/entrypoints/worker.py:333-347 | One pass reads the clock once, starts exactly the due jobs in table order, each when those before it are done, whichever of them raise, and restamps exactly those |
| `Worker.StartsInTurn` | src/geekvpn/entrypoints/worker.py:333-347 | What a pass starts is done one after another, the first at the reading of the clock, each other as long after the one before as that one takes |
| `Worker.StartsInOrder` | src/geekvpn/entrypoints/worker.py:339-347 | Of any two jobs of the table that a pass starts the earlier in the table starts first |
| `Worker.DueJobsAreDue` | src/geekvpn/entrypoints/worker.py:339-347 | What a pass starts and when, and how it moves the stamps, job by job: started if and only if due, after what the due jobs before it take, and every other stamp as it was |
| `Worker.Worker.GuardedTick` | src/geekvpn/entrypoints/worker.py:242-269 | A tick without the lock does nothing; with it, which sweeps start and whether the table is reached follow from what raises, and the delete meets whatever the key has become by then; a question for the lock that raises leaves the tick |
| `Worker.Worker.Run` | src/geekvpn/entrypoints/worker.py:199-226 | The loop with its three counters logs exactly the ticks of the closed form, for every sequence of conditions, up to the first iteration that cannot ask for the lock |
| `Worker.AskedIsDue` | src/geekvpn/entrypoints/worker.py:205-222 | The flags come up on every 3rd, 21st and 11th iteration, however the ticks before went |
| `Worker.TickAt` | src/geekvpn/entrypoints/worker.py:204-222 | What any iteration of a run did, from its own conditions and the stamps it found |
| `Worker.ReachesTheTableIff` | src/geekvpn/entrypoints/worker.py:249-266 | In numbers: an iteration ticks if and only if the key is missing or 300 seconds old, and then reaches the table and the scheduler if and only if no sweep raises whose turn, every 3rd, 21st and 11th, it is |
| `Worker.StarvedTicks` | src/geekvpn/entrypoints/worker.py:255-266 | With the lock held a tick misses the table only on multiples of 3 and 11, and misses it on exactly those if all sweeps raise |
| `Worker.BoundedStarvation` | src/geekvpn/entrypoints/worker.py:255-266 | Whatever raises, of any three iterations in a row that get the lock one reaches the periodic jobs and the scheduler |
| `Worker.UsageSyncBehindProvisioning` | src/geekvpn/entrypoints/worker.py:256-261 | Usage is read on exactly the 21st iterations whose provisioning sweep came through, and lapsed services are swept on exactly the 11th that neither stopped |
| `Worker.LostTurnsStayLost` | src/geekvpn/entrypoints/worker.py:204-222 | Provisioning runs on exactly the 3rd iterations that got the lock: a turn lost to the lock is not made up for |
| `Worker.StampSumsUpTheRun` | src/geekvpn/entrypoints/worker.py:188-192 | After any part of a run a stamp has passed if and only if the initial wait and the interval since the clock reading of every pass that started the job have |
| `Worker.JobStartsIff` | src/geekvpn/entrypoints/worker.py:333-347 | A job starts in an iteration, at a given time, if and only if the iteration reaches the table, the interval has passed since the reading of every pass that started it, and the time is this pass's reading and what the due jobs before it take |
| `Worker.HeldUpForTwoTicks` | src/geekvpn/entrypoints/worker.py:255-266 | Of any three iterations in a row that get the lock, with a clock that does not go back, one starts a job that nothing held at the first, whatever raises |
| `Worker.SteadyCadence` | src/geekvpn/entrypoints/worker.py:176-192 | With a clock of 30 seconds a tick and no sweep in the way: gateways in every iteration, the ten-minute jobs in every 20th, the hourly ones in every 120th, renewals in every 30th from the 20th on |
| `Worker.GatewaysEveryTick` | src/geekvpn/entrypoints/worker.py:149-151 | As long as ticks are 30 seconds apart, payments at gateways are looked at in exactly the iterations that reach the table, however the others went |
| `Worker.JobSpacing` | src/geekvpn/entrypoints/worker.py:339-347 | Two starts of one job are apart at least its interval less the wait of the earlier one, and a full interval if and only if that wait is no longer than the wait of the later one and the time the later reading was past due |
| `Worker.FirstJobSpacing` | src/geekvpn/entrypoints/worker.py:176-187 | Starts of the first job of the table are always a full interval apart |
| `Worker.SlowBackup` | src/geekvpn/entrypoints/worker.py:176-187 | Whatever the ticks between do, a slow backup in one pass and a quick one an hour later leave 3480 seconds between two starts of the hourly cleanup |
| `Fleet.LoopPrefixIff` | src/geekvpn/entrypoints/worker.py:204-269 | What one process can have done to the key at any moment, as beginnings of runs of the loop and as a small automaton, is the same |
| `Fleet.InterleavingIsRun` | src/geekvpn/entrypoints/worker.py:199-269 | However the loops of any number of workers interleave, with processes begun and killed anywhere, they are a run of the lock's protocol, each worker where its loop is |
| `Fleet.OneLoopTicks` | src/geekvpn/entrypoints/worker.py:199-269 | So while ticks end within the TTL no two loops are between taking the lock and their delete |
| `ReleaseNotices.StampSumsUp` | src/geekvpn/entrypoints/worker.py:414-420 | After any sequence of versions the stamp is the newest one seen, or for ever the first if that cannot be read |
| `ReleaseNotices.AnnouncedIffRecord` | src/geekvpn/entrypoints/worker.py:153-164 | A version is announced if and only if it is newer than every version before it, is not the first seen, and the first seen can be read |
| `ReleaseNotices.SecondInNumbers` | src/geekvpn/entrypoints/worker.py:153-164 | In numbers: of two versions shown one after the other the first is not announced, and the second if and only if its triple is greater |
| `ReleaseNotices.AnnouncementsGoUp` | src/geekvpn/entrypoints/worker.py:401-425 | Announced versions strictly increase: none twice, none backwards |
| `ReleaseNotices.UnreadableFirstSilences` | src/geekvpn/entrypoints/worker.py:153-164 | After an unreadable first version nothing is ever announced |
| `ReleaseNotices.LatestSilences` | src/geekvpn/entrypoints/worker.py:153-164 | A first tag called latest is such a version, whatever comes later |
| `ReleaseNotices.Announcer.Look` | src/geekvpn/entrypoints/worker.py:411-425 | One download is announced exactly when it is a record of its platform, raises exactly when that announcement does, and keeps the stamps and announcements of every platform what the versions observed on it make them, even when the send raises |
| `ReleaseNotices.Announcer.ReleaseNotice` | src/geekvpn/entrypoints/worker.py:401-425 | A pass looks at the downloads in order up to and including the first whose announcement raises, at all of them if none does, announces exactly the records among them, and keeps that account of every platform |
| `Gregorian.DayNumberOfNext` | miniapp/src/lib/jalali.ts:35-42 | The Gregorian day count goes up by one over every day, month end, leap day, century and 400-year leap |
| `Gregorian.CountsEveryDay` | miniapp/src/lib/jalali.ts:11-15 | The same as the property the calendar walk needs, for all dates |
| `Gregorian.WalkOfDayNumber` | miniapp/src/lib/jalali.ts:35-42 | Turning the calendar that many days on from 1 January 1600 arrives at the date |
| `Jalali.SplitsIntoYears` | miniapp/src/lib/jalali.ts:44-54 | With remainders that round down, 33-year cycles and four-year groups find the year and the day within it, the day within the year's own length |
| `Jalali.BeforeEpoch` | miniapp/src/lib/jalali.ts:44-54 | With JavaScript's remainders a negative day count yields its own date if and only if it is a multiple of 12053 |
| `Jalali.YearAndDay` | miniapp/src/lib/jalali.ts:44-54 | In JavaScript the split finds year and day from the epoch on, and before it only whole cycles away |
| `Jalali.YearAndDayInBot` | src/geekvpn/presentation/bot/ui/fa.py:215-221 | In Python it finds them for every day |
| `Jalali.MonthAndDay` | miniapp/src/lib/jalali.ts:56-61 | The subtracting loop finds the valid month and day of a day of the year, and falls into the first month for a negative one |
| `Jalali.GregorianDays` | admin/src/lib/jalali.ts:35-42 | The source's day count is the model's, whose partner is the calendar walk |
| `Jalali.ToJalali` | miniapp/src/lib/jalali.ts:30-62 | The answer is a valid date of the same day, and the bot's answer, if and only if the date is from 20 March 1600 on or whole cycles before it; from then on it is the date the calendar itself arrives at |
| `Jalali.ToJalaliInBot` | src/geekvpn/presentation/bot/ui/fa.py:203-227 | The bot's function answers with the valid Jalali date of the same day for every Gregorian date |
| `Jalali.DayBeforeTheEpoch` | miniapp/src/lib/jalali.ts:44-49 | 19 March 1600, the last day of 978, is a date the front ends get wrong |
| `Jalali.KeepsStep` | miniapp/src/lib/jalali.ts:30-62 | The next Gregorian day is converted to the next Jalali day |
| `Jalali.NextDayToNextDay` | src/geekvpn/presentation/bot/ui/fa.py:203-227 | The same for every date of either calendar |
| `Jalali.StartsInStep` | miniapp/src/lib/jalali.ts:44-48 | 20 March 1600 is 1 Farvardin 979 |
| `KnownDays.SixDays` | admin/tests/jalali.test.ts:16-82 | Six days, those of the front ends' own tests among them: the end of a leap year, the end of six long months, Nowruz 1405 |
| `Jalali.TurnedTogether` | miniapp/src/lib/jalali.ts:30-62 | Both calendars turned any number of days on from there, with no arithmetic in between, stay conversions of each other |
| `Jalali.StrictlyIncreasing` | miniapp/src/lib/jalali.ts:30-62 | One Gregorian date is before another exactly when its conversion is, so none share one |
| `Jalali.EveryDateIsHit` | miniapp/src/lib/jalali.ts:30-62 | Every valid Jalali date from 979/1/1 on is some Gregorian date's |
| `Jalali.WalkOfDayNumber` | miniapp/src/lib/jalali.ts:44-61 | The Jalali day count leads back to the date it was counted from |
| `PersianText.SeparatedIsGrouped` | admin/src/lib/fa.ts:90-96 | The lookahead replacement groups the digits of every signed number in threes from the right |
| `PersianText.GroupsOf` | admin/src/lib/fa.ts:90-96 | The printed groups: three digits each, one to three in the first, and together the digits printed |
| `PersianText.FaNumberIs` | admin/src/lib/fa.ts:90-96 | What is printed for every whole or fixed-decimal number, negative ones included |
| `PersianText.PrintedInPersian` | admin/src/lib/fa.ts:27-41 | In code points: every digit is printed as the Persian one, U+06F0 to U+06F9, and nothing else is changed |
| `PersianText.MinusAMillion` | admin/src/lib/fa.ts:90-96 | -1234567.8 printed, character by character |
| `PersianText.ReadsBack` | admin/src/lib/fa.ts:57-62 | `normalizeInput(faNumber(x))` is x's Latin numeral, for every whole and fixed-decimal number |
| `PersianText.IntegerReadsBack` | miniapp/src/lib/fa.ts:57-62 | In particular for every integer |
| `PersianText.NormalizeInputIs` | admin/src/lib/fa.ts:57-62 | Nothing is ever left for the final `trim`, and no filler survives |
| `PersianText.ReadsEitherScript` | admin/src/lib/fa.ts:43-49 | Persian, Arabic and Latin digits, mixed, are read one for one |
| `PersianText.FillersAreNothing` | admin/src/lib/fa.ts:57-62 | A separator, a comma or a blank is as good as not typed, wherever it stands |
| `PersianText.ReadingTwice` | admin/src/lib/fa.ts:57-62 | Reading what was read changes nothing if and only if the text has at most one Persian decimal point |
| `PersianText.TwoPointsTakeTwoReadings` | admin/src/lib/fa.ts:60 | A text with two points that a second reading changes |
| `CountdownText.CountdownReadsBack` | admin/src/lib/fa.ts:214-225 | A countdown always shows hours and two digits each of minutes and seconds below sixty, and however it is read back it is the whole seconds left, zero once the time is past |
| `CountdownText.SameShownIffSameLeft` | admin/src/lib/fa.ts:208-225 | Two countdowns look the same exactly when as many whole seconds are left |
| `CountdownText.OneOfEach` | admin/src/lib/fa.ts:208-225 | An hour, a minute and a second and a half, character by character |
| `Slugs.EditSlugIsScan` | admin/src/lib/slug.ts:15-23 | The six-step pipeline equals a one-pass transducer that stops at 64 characters, for every text |
| `Slugs.OneMoreKey` | admin/src/lib/slug.ts:15-23 | What one more character does, class by class: a to z and 0 to 9 are added, a hyphen, an underscore or one of JavaScript's blanks becomes a hyphen after a word, all else is dropped, nothing is added to 64 |
| `Slugs.WordsAreJoined` | admin/src/lib/slug.ts:15-23 | Words with any runs of spaces, tabs, underscores and hyphens between become the words joined by single hyphens, cut at 64 |
| `Slugs.TwoWords` | admin/src/lib/slug.ts:18 | In particular two words with a space or an underscore between |
| `Slugs.EditSlugFixes` | admin/src/lib/slug.ts:14-23 | What the field shows is always a draft of at most 64 characters, and those drafts are exactly the texts it leaves alone |
| `Slugs.EditSlugIdempotent` | admin/src/lib/slug.ts:15-23 | Editing what was edited changes nothing |
| `Slugs.TypingIsPasting` | admin/src/lib/slug.ts:14-23 | Typing on at the end of what the field shows equals pasting the whole |
| `Slugs.SlugIsFinishedDraft` | src/geekvpn/domain/catalog/slug.py:16-17 | The API's pattern holds of exactly the non-empty drafts without a trailing hyphen |
| `Slugs.SlugToSaveIsAccepted` | admin/src/lib/slug.ts:30-44 | With a valid prefix the slug sent is always one the API accepts, whatever was typed and whatever the name |
| `Slugs.TypedSlugIsKept` | admin/src/lib/slug.ts:36-41 | A slug the API would accept is sent as typed if and only if it has two characters or more |
| `Slugs.FallsBack` | admin/src/lib/slug.ts:36-43 | What is too short gives way to the name as it is if the API takes it, and that to the prefix and six characters |
| `ChatIds.EditChatIdIs` | admin/src/lib/chat-id.ts:10-15 | The field's passes come to one: drop fillers, read the digits, keep a leading minus of any kind |
| `ChatIds.EditChatIdFixes` | admin/src/lib/chat-id.ts:10-15 | The field always holds an id or the start of one, and leaves exactly those alone |
| `ChatIds.LooksLikeMinus` | admin/src/lib/chat-id.ts:10-15 | A sign is kept of the hyphen, the minus sign, the en dash and the typographic hyphen, and of no other character |
| `ChatIds.TypingIsPastingUnless` | admin/src/lib/chat-id.ts:3-15 | Typing equals pasting if and only if what was typed is not something without a digit or a leading minus, followed by a minus |
| `ChatIds.DroppedBeforeMinus` | admin/src/lib/chat-id.ts:10-15 | -1 typed after a dropped x stays -1; x-1 pasted is 1 |
| `ChatIds.SavesWhatWasShown` | admin/src/lib/chat-id.ts:17-23 | An id shown grouped in Persian digits is saved as the number it was, for every integer |
| `ShopCustomers.PairIsTheRule` | migrations/versions/0009_reseller_customers.py:50-67 | The two partial unique indexes hold if and only if there is at most one row per account and shop, no shop being one shop |
| `ShopCustomers.CompositeSaysLess` | migrations/versions/0009_reseller_customers.py:50-67 | A composite unique with distinct NULLs lacks exactly the platform's part of that rule, and a table shows it |
| `ShopCustomers.Users.Upgrade` | migrations/versions/0009_reseller_customers.py:34-69 | From every table the old constraint allows the indexes can be created |
| `ShopCustomers.Users.Insert` | migrations/versions/0009_reseller_customers.py:54-67 | An insert is admitted exactly when its shop lacks the account, and keeps the rule |
| `ShopCustomers.Users.DeleteReseller` | migrations/versions/0009_reseller_customers.py:39-48 | Setting a closed reseller's customers to no shop goes through if and only if none of them is a platform customer too, and keeps the rule |
| `ShopCustomers.Users.Downgrade` | migrations/versions/0009_reseller_customers.py:72-85 | After the delete the old constraint can always be restored, and only resellers' customers are gone |
| `ShopCustomers.ReleasedKeepsRule` | migrations/versions/0009_reseller_customers.py:45-47 | Exactly when releasing a reseller's customers keeps the rule |
| `ShopCustomers.BothShopsCustomer` | migrations/versions/0009_reseller_customers.py:39-60 | A table the rule allows in which deleting the reseller breaks it |
| `ClaimedAccounts.KeptIffEarliest` | migrations/versions/0027_one_claim_per_account.py:44-51 | The self-join's condition spares a row exactly when no claim of its account is earlier |
| `ClaimedAccounts.EarliestGivesWayToNone` | migrations/versions/0027_one_claim_per_account.py:45-51 | In columns: a row is kept if and only if no other row without an order of its node and panel name started earlier, or at the same time under an id that comes first |
| `ClaimedAccounts.Subscriptions.DeleteLaterClaims` | migrations/versions/0027_one_claim_per_account.py:41-54 | The DELETE, by SQL's own truth values, leaves exactly the earliest claim of each account and every other row |
| `ClaimedAccounts.Subscriptions.Upgrade` | migrations/versions/0027_one_claim_per_account.py:40-61 | On every table the upgrade succeeds: of each account's claims the earliest stays, every other row stays as it was, and the index holds |
| `ClaimedAccounts.OneEarliest` | migrations/versions/0027_one_claim_per_account.py:44-61 | Two rows that both stay are not claims of one account |
| `ClaimedAccounts.AccountKeepsOne` | migrations/versions/0027_one_claim_per_account.py:44-61 | Every claimed account keeps exactly one claim |
| `ReferralBackfill.EdgeIdInjective` | migrations/versions/0028_backfill_referral_edges.py:43 | Generated ids of different accounts differ |
| `ReferralBackfill.InsertEachIs` | migrations/versions/0028_backfill_referral_edges.py:36-64 | Row by row with ON CONFLICT DO NOTHING comes to the first edge of each account, or fails exactly on a taken id |
| `ReferralBackfill.FirstOneStays` | migrations/versions/0028_backfill_referral_edges.py:60-63 | Of an account's several edges the one the database comes to first stays |
| `ReferralBackfill.InsertRows` | migrations/versions/0028_backfill_referral_edges.py:36-64 | Inserting against the growing table is that row-by-row rule |
| `ReferralBackfill.Database.Upgrade` | migrations/versions/0028_backfill_referral_edges.py:33-66 | For any plan the database picks: succeeds exactly when no generated id is taken, and always where every such id is its own row's; keeps uniqueness of invitees and no self-referral, leaves old edges as they were, gives an edge to exactly the accounts selected, every account whose code resolves to somebody else among them, and says of every new row what is in each of its ten columns |
| `ReferralBackfill.NewRowsAre` | migrations/versions/0028_backfill_referral_edges.py:42-49 | Column by column: a new row is that of the first pair of its account, with that pair's referrer and code, the account's date, no amounts and the statement's time |
| `ReferralBackfill.OwnBackfillsStay` | migrations/versions/0028_backfill_referral_edges.py:43-59 | If every id that looks generated belongs to its own invitee, none that is generated is taken, and it stays so |
| `ReferralBackfill.TakenIdFails` | migrations/versions/0028_backfill_referral_edges.py:43-63 | A consistent table on which the upgrade fails whatever the plan |
| `ReferralBackfill.StaysConsistent` | migrations/versions/0028_backfill_referral_edges.py:33-66 | The table's constraints survive the insert |
| `ReferralBackfill.EveryoneHasAnEdge` | migrations/versions/0028_backfill_referral_edges.py:50-59 | Who has an edge afterwards: those who had one and those selected |
| `ReferralBackfill.SecondRunFindsNothing` | migrations/versions/0028_backfill_referral_edges.py:57-63 | Afterwards every account whose code resolves to somebody else has an edge, and the statement selects nothing again |
| `Versions.VersionIff` | src/geekvpn/infrastructure/desktop_release.py:38-64 | A text is a version if and only if, trimmed and without its `v`, it starts with three numbers and two points, in decimal digits of any script, and then it is those numbers |
| `Versions.VersionTextIsRead` | src/geekvpn/infrastructure/desktop_release.py:58-64 | Every triple is read back from its text, with or without `v`, and whatever follows is ignored |
| `Versions.OlderInNumbers` | src/geekvpn/infrastructure/desktop_release.py:58-64 | In numbers: of two versions, with anything after them, one is older if and only if its major is smaller, or its minor at level majors, or its patch at level both |
| `DesktopReleases.PlatformsAre` | src/geekvpn/infrastructure/desktop_release.py:79-88 | A key is in the release if and only if some entry of it is signed and on HTTPS, and then with the last such entry's own signature |
| `DesktopReleases.NoPlatforms` | src/geekvpn/infrastructure/desktop_release.py:89-90 | Nothing is installable exactly when no entry is signed and on HTTPS |
| `DesktopReleases.CollectPlatforms` | src/geekvpn/infrastructure/desktop_release.py:75-88 | The loop over the entries collects those packages, or raises exactly when an address that is to be mirrored cannot be split |
| `DesktopReleases.RaisesIff` | src/geekvpn/infrastructure/desktop_release.py:84-87 | Splitting an address raises if and only if it is signed, moved to a mirror and has one bracket without the other in its host, or another fault of the host |
| `DesktopReleases.ParseManifest` | src/geekvpn/infrastructure/desktop_release.py:67-96 | A manifest with a readable version is unreadable if and only if splitting one of its acceptable addresses raises, otherwise a release if and only if something is installable, and what the release then holds |
| `DesktopReleases.LoneBracketRaises` | src/geekvpn/infrastructure/desktop_release.py:86-87 | An address with a lone bracket in its host spoils the whole manifest with a mirror, and does no harm without |
| `DesktopReleases.MirrorServesTheFile` | src/geekvpn/infrastructure/desktop_release.py:86-87 | On the mirror a package is the same file and signature: what follows the last slash of the address's path, without query or fragment |
| `DesktopReleases.BareMirrorIs` | src/geekvpn/infrastructure/desktop_release.py:74 | The mirror is its address without the blanks around it and the slashes at its end |
| `DesktopReleases.TokenIff` | src/geekvpn/infrastructure/desktop_release.py:40 | A token is one to sixteen small letters, digits and underscores, with or without one newline after them |
| `DesktopReleases.OfferInNumbers` | src/geekvpn/infrastructure/desktop_release.py:99-134 | For an app and a release of any two triples: an offer if and only if the release's triple is greater, target and architecture are tokens and there is a package, the bundle's own first; required if and only if the floor's triple is greater too |
| `DesktopReleases.OfferIsSigned` | src/geekvpn/infrastructure/desktop_release.py:121-132 | An offer carries the signature of a signed HTTPS entry under one of the app's two keys |
| `DesktopReleases.InstallingSettles` | src/geekvpn/infrastructure/desktop_release.py:115-118 | After installing an offer the same release has nothing more, whatever the floor |
| `DesktopReleases.NeverRollsBack` | src/geekvpn/infrastructure/desktop_release.py:99-134 | Over any sequence of releases and installs every offer is newer than everything the app ever had |
| `AppReleases.AbiOfIff` | src/geekvpn/infrastructure/app_release.py:63-68 | A file stands for an ABI if and only if that is `arm64-v8a`, `armeabi-v7a`, `x86` or `universal` and the name is the ABI and `.apk`, alone or after an underscore; none stands for `x86_64` |
| `AppReleases.ApkOfIff` | src/geekvpn/infrastructure/app_release.py:80-99 | An asset can be installed if and only if its name stands for an ABI and it has an address, the mirror's or its own; which address, and a digest only if it is a SHA-256 |
| `AppReleases.ApksAre` | src/geekvpn/infrastructure/app_release.py:80-99 | An APK is in the list if and only if it is made of some asset with a known ABI and an address |
| `AppReleases.ByAbiIsStable` | src/geekvpn/infrastructure/app_release.py:106 | Sorting orders the ABIs, loses and adds no file and keeps the order within an ABI |
| `StableSort.OnlyOfSorted` | src/geekvpn/domain/catalog/custom_volume.py:61-75 | Choosing from a sorted list and sorting what was chosen are the same, for every order and choice |
| `AppReleases.ParseRelease` | src/geekvpn/infrastructure/app_release.py:71-107 | When a payload is unreadable, holds nothing, or is a release of which files, in that order of precedence |
| `AppReleases.ReleaseListsWhatInstalls` | src/geekvpn/infrastructure/app_release.py:80-107 | There is a release exactly when some asset installs, and it lists, by ABI, every file as often as it is attached and nothing else |
| `AppReleases.ListedByAbi` | src/geekvpn/infrastructure/app_release.py:106 | In every release the files come in the order `arm64-v8a`, `armeabi-v7a`, `universal`, `x86` |
| `Json.LoadsDumps` | src/geekvpn/infrastructure/app_release.py:163-173 | `loads` of `dumps` is the value, for every value of texts, integers, lists and objects: escapes, surrogate pairs, separators and nesting |
| `Json.PrintedWithBlanks` | src/geekvpn/infrastructure/app_release.py:163-168 | What is printed has a blank after every colon and comma and nowhere else |
| `ReleaseTexts.AppReadsBack` | src/geekvpn/infrastructure/app_release.py:163-181 | The fields of an encoded app release give it back, files in order |
| `ReleaseTexts.DesktopReadsBack` | src/geekvpn/infrastructure/desktop_release.py:215-233 | The fields of an encoded desktop release give it back, platforms included, in whatever order they came |
| `ReleaseTexts.AppFields` | src/geekvpn/infrastructure/app_release.py:163-168 | The fields of a release are stored under their own names |
| `ReleaseTexts.ApkFields` | src/geekvpn/infrastructure/app_release.py:163-168 | And so are those of a file, and no others |
| `ReleaseTexts.CodecsAreFaithful` | src/geekvpn/infrastructure/app_release.py:126-181 | Both round trips through the text itself, and no release's text is the sentinel for none |
| `ReleaseCache.Source.Latest` | src/geekvpn/infrastructure/app_release.py:126-168 | A call looks, and either answers from the cache or asks GitHub while other calls do anything, and then gives up or writes the answer it returns; that is all it adds to the history, which stays one |
| `ReleaseCache.HistoryIsCalls` | src/geekvpn/infrastructure/app_release.py:126-168 | A history is nothing but interleaved calls, each having done the beginning of what one call does |
| `ReleaseCache.CacheHoldsLast` | src/geekvpn/infrastructure/app_release.py:129-168 | However calls overlap, the cache holds what was written last, from the time of that write |
| `ReleaseCache.MissesIff` | src/geekvpn/infrastructure/desktop_release.py:153-158 | A call goes to GitHub if and only if nothing written by then is within its time |
| `ReleaseCache.AskedAgainOnlyMeanwhile` | src/geekvpn/infrastructure/desktop_release.py:153-220 | GitHub is asked again within the time of an answer only by a call that looked before it was written |
| `ReleaseCache.AnswersAgree` | src/geekvpn/infrastructure/app_release.py:126-168 | A look that finds something gets what GitHub answered the call that wrote last |
| `ReleaseCache.FailureLeavesNoTrace` | src/geekvpn/infrastructure/desktop_release.py:194-211 | Taking a failed call, its look and its giving up, out of any history leaves a history in which the cache and every other call are where they were |
| `ReleaseCache.LooksBeforeItWrites` | src/geekvpn/infrastructure/app_release.py:129-167 | In a history every write comes after a look of its own call that found nothing |
| `ReleaseCache.FreshIffInOrder` | src/geekvpn/infrastructure/app_release.py:129-168 | At every moment the cache holds the answer of the call that looked last, of those that have written, if and only if calls write in the order in which they looked |
| `ReleaseCache.OneAtATimeIsFresh` | src/geekvpn/infrastructure/app_release.py:129-168 | So it does wherever no call looks while another is asking |
| `ReleaseCache.OlderAnswerStays` | src/geekvpn/infrastructure/app_release.py:129-168 | A history of two overlapping calls in which the first to look writes last, and its older release is then served for the whole TTL |
| `PackageTerms.ReachesIff` | miniapp/src/lib/plans.ts:75-78 | The floor of the allowance and the ceiling of the threshold are adjoint: a volume reaches an allowance if and only if it reaches the threshold |
| `PackageTerms.SoldByVolumeIff` | miniapp/src/lib/plans.ts:80-84 | A plan is sold by volume if and only if some product lists it as traffic with a quota above nothing |
| `PackageTerms.SoldInListedOrder` | miniapp/src/lib/plans.ts:80-84 | And such plans stay in the order they are listed in, each as often as listed |
| `PackageTerms.FloorsStep` | miniapp/src/lib/plans.ts:92-95 | One turn of the Map loop keeps it the least threshold of every term |
| `PackageTerms.LeastIsLeast` | miniapp/src/lib/plans.ts:96-97 | The value picked from the map is the least volume reaching a deciding package |
| `PackageTerms.CustomFloor` | miniapp/src/lib/plans.ts:86-98 | Nothing exactly when nothing is sold by volume; otherwise the least monthly volume that adds up to a package of the monthly term, or of any term without one |
| `PackageTerms.AnchorsByTerm` | miniapp/src/lib/plans.ts:100-107 | The anchors are exactly the first-listed package of each term, shortest term first |
| `CustomVolume.PricedIff` | src/geekvpn/domain/catalog/custom_volume.py:59-72 | A volume has a price if and only if it is within the cap and some package has no more in it; otherwise the refusal names the right limit |
| `CustomVolume.LastBelowIs` | src/geekvpn/domain/catalog/custom_volume.py:61-76 | Sorting and filtering finds the largest package with no more in it, of several the last listed |
| `CustomVolume.FirstAboveIs` | src/geekvpn/domain/catalog/custom_volume.py:61-79 | And the smallest with no less in it, of several the first listed |
| `CustomVolume.GuardOfPrice` | src/geekvpn/domain/catalog/custom_volume.py:93-96 | A volume never costs less than a package with no more in it, and never more than that guard or the line asks |
| `CustomVolume.LineInThousands` | src/geekvpn/domain/catalog/custom_volume.py:78-96 | Between its two nearest packages, however the catalogue is listed, the price is the multiple of 1000 that is no more than the straight line and less than 1000 below it, with no division on the way, or the guard |
| `CustomVolume.RateInThousands` | src/geekvpn/domain/catalog/custom_volume.py:89-96 | Past the largest package it is that multiple of what the package's own rate asks, or the guard |
| `CustomVolume.ThirtyFive` | src/geekvpn/domain/catalog/custom_volume.py:6-9 | The shop's own example: 35 between 20 at 180,000 and 50 at 400,000 is 290,000 |
| `CustomVolume.OwnPackage` | src/geekvpn/domain/catalog/custom_volume.py:78-96 | A package's own volume costs what the package costs if and only if no package with no more in it is dearer |
| `CustomVolume.SmallerIsDearer` | src/geekvpn/domain/catalog/custom_volume.py:93-96 | A catalogue in which a package typed as a volume costs more than the package |
| `CustomVolume.MoreNeverCostsLess` | src/geekvpn/domain/catalog/custom_volume.py:59-96 | The price never falls as the volume grows, for every catalogue, oddly priced ones included |
| `CustomVolume.PricedFromTheMinimum` | src/geekvpn/application/catalog/quoting_service.py:211-225 | The minimum a refusal names is the exact border of what is priced, for every term |
| `CustomVolume.TypedIsPriced` | miniapp/src/lib/plans.ts:69-98 | In every term whatever is typed, the smallest allowed volume included, is priced if and only if it is at least the threshold of one of the term's packages |
| `CustomVolume.MonthlyTermFromTheFloor` | miniapp/src/lib/plans.ts:86-98 | In the monthly term the smallest volume the Mini App lets a customer type is exactly the least the backend prices |
| `CustomVolume.NoTermBelowTheFloor` | miniapp/src/lib/plans.ts:86-98 | Without a monthly term no term prices less |
| `CustomVolume.SomeTermPricesTheFloor` | miniapp/src/lib/plans.ts:86-98 | Some term always prices it |
| `CustomVolume.LongerTermMayRefuse` | src/geekvpn/application/catalog/quoting_service.py:211-221 | A catalogue whose quarterly term refuses the typed floor |

## Left out

- Versions.VersionIff: Python refuses to convert more than 4300 digits with a ValueError; decimal digits are those of Unicode 15.0, which Python 3.12 has.
- Worker.Worker.Run: an iteration takes no time of its own beyond the clock readings in its conditions, and nothing says how far apart those are.
- Worker.Worker.RunPeriodic: a job is its name, whether it raises and how long it takes; what the sweeps, the jobs and the scheduler do, and whether `_run_scheduled_jobs` itself raises, is not modelled.
- ReleaseNotices.Announcer.ReleaseNotice: the cache never loses a stamp and never fails; `render_release_notice` and the broadcast are only "raises or not".
- Slugs.EditSlugIsScan: lower-casing is any function of one character, so the context-dependent final sigma is not covered; characters are Unicode scalars, not UTF-16 units, which after the filter are the same.
- Slugs.SlugToSaveIsAccepted: `Math.random` is any text of base-36 digits; `validate_slug` is modelled on texts it need not trim or lower-case.
- PersianText.ReadsBack: numbers are the texts `String` and `toFixed` print; exponents, NaN, infinities and the rounding itself are not modelled.
- ChatIds.SavesWhatWasShown: `Number` is exact, so ids beyond 2^53 are not rounded.
- CountdownText.CountdownReadsBack: seconds are a real number; the clock that turns a date into them is not modelled.
- PackageTerms.CustomFloor: quotients are exact, not JavaScript doubles; durations are positive.
- CustomVolume.PricedFromTheMinimum: `int(x / 30)` is taken for the exact quotient rounded down, which it is for volumes below 2^49 and no negative ones; the retail prices and the anchor plan are not modelled.
- DesktopReleases.ParseManifest: fields of a manifest are texts, and values of other types, which the source prints with `str`, are not covered; what `urlsplit` finds wrong with a host besides a lone bracket is any predicate, and the control characters it removes first are not removed.
- AppReleases.ParseRelease: fields of an asset are texts and an integer; `int` of another type may raise.
- ReleaseTexts.CodecsAreFaithful: a cached text with ill-typed fields is decoded to nothing instead of to an ill-typed release or an AttributeError.
- Json.LoadsDumps: numbers with a fraction or an exponent, NaN and the infinities, and lone surrogates are not values here and are not read.
- ReleaseCache.Source.Latest: the cache starts empty, does not raise, does not evict early, and all calls read one clock; HTTP is the outcome it ends in.
- ReferralBackfill.Database.Upgrade: one statement in one transaction, with no other writer; other columns of `users` are not modelled.
- ClaimedAccounts.Subscriptions.Upgrade: rows of other tables that point at a deleted subscription are not modelled.
- ShopCustomers.Users.Downgrade: rows of other tables that point at a deleted user are not modelled.
- The heartbeat, `_beat`, and the logging of the worker.
- `faDate`, `faDateTime`, `faRelative`, `faDuration`, `gib`, `percent`, the names of months and weekdays: tables and one-branch choices around what is modelled.
- `byTerm`, `findProduct`, `customName` and `custom_plan`: a further stable sort, a search and two record builders.
- Schema-only migrations, the API clients, pages and components.

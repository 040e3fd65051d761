# Achievement and badge unlock engine

A Dafny model of the rule engine behind a Laravel 10 learning platform's
achievements and badges. Users watch lessons and write comments. An
`AchievementUnlocked` event names an achievement. `UnlockAchievementListener`
looks that name up in a name-to-checker table, which its constructor builds
from the catalog in `AchievementService::getAchievements`. It then compares the
user's lesson or comment count with the number written in the name, and
creates the achievement row if no row with that name exists yet. A
`BadgeUnlocked` event names a badge tier. `UnlockBadgeListener` compares the
user's number of achievement rows with the tier's threshold from
`BadgeService::getBadges` and overwrites the user's badge column when that
threshold is met. Two read-only queries complete the picture:

- `calculateNextAvailableAchievements` gives the first locked name of each
  category. It exists twice, in `AchievementService` and in
  `AchievementsController`.
- `calculateBadgeProgress` gives the current tier, the next tier and how many
  achievements remain until the next tier.

Modules:

- `Wrappers`: the `Option`, `Result` and `Outcome` datatypes.
- `Digits`: `extractNumber` as a scan for the first run of digits, and the
  decimal rendering used to rebuild "{$threshold} Lessons Watched".
- `AchievementService`: the catalog as a constant, lemmas about its shape,
  and `calculateNextAvailableAchievements` as a loop proved against the
  function `NextAvailable`.
- `BadgeService`: the tier table as a constant, and lookup by name.
- `Store`: the persisted state. It holds a `Database` class whose `users` map
  gives each user's counters, achievement rows (a list, so that a duplicate
  row could be seen) and nullable badge. It also holds the listeners' errors
  and their messages.
- `AchievementRules` and `BadgeRules`: what each listener method does, written
  as functions from the old user record to the new one. `handle` returns
  either the new users table or the error it throws. These modules also hold
  the lemmas about those functions.
- `AchievementListener` and `BadgeListener`: the listeners as classes.
  - The achievement listener's constructor fills its checker table with the
    source's nested loops.
  - Every method updates `Database.users` in place.
  - Each method is proved to leave exactly the state that its function in
    `AchievementRules` or `BadgeRules` computes.
- `AchievementsController`: the controller's copy of the next-available loop,
  proved equal to the service's specification. It also holds the
  badge-progress loop, proved against a tier walk, with lemmas that bracket
  the count.

## Model

| member | source | states |
|---|---|---|
| Digits.ExtractFormatted | app/Listeners/UnlockAchievementListener.php:180-186 | Scanning a number's decimal text followed by text that does not start with a digit gives back that number: the number a name is built from is the number read back from it |
| Digits.ExtractNumber | app/Listeners/UnlockAchievementListener.php:180-186 | The scan gives None exactly when the string contains no ASCII digit; otherwise it gives the value of the first maximal run of digits (stated for every string by Digits.ExtractNumberFirstRun) |
| Digits.ExtractNumberFirstRun | app/Listeners/UnlockAchievementListener.php:182-183 | The scan skips everything before the first digit and reads the value of the maximal run of digits that starts there |
| Digits.ValueOfFormat | app/Listeners/UnlockAchievementListener.php:141 | The decimal text of a threshold has the threshold as its value |
| AchievementService.Achievements | app/Services/AchievementService.php:7-13 | The catalog as a constant: "Lessons Watched" with its five names, then "Comments Written" with its five names, in the source's order (its shape is stated by the lemmas below) |
| AchievementService.CatalogShape | app/Services/AchievementService.php:9-12 | Two categories, "Lessons Watched" then "Comments Written", with five names each; the first names are "First Lesson Watched" and "First Comment Written" |
| AchievementService.NamesDistinct | app/Services/AchievementService.php:9-12 | The ten catalog names are pairwise distinct |
| AchievementService.NamedByThreshold | app/Services/AchievementService.php:10-11 | Every numbered name is its threshold in decimal followed by the category suffix, so the number scan reads that threshold back |
| AchievementService.ThresholdsAscending | app/Services/AchievementService.php:10-11 | Within a category the thresholds start at 1 and strictly ascend in catalog order |
| AchievementService.CatalogPosition | app/Services/AchievementService.php:9-12 | Every catalog name is entry k of some category c |
| AchievementService.FirstLockedIndex | app/Services/AchievementService.php:31-36 | The position the inner loop stops at: every earlier name is unlocked and the name there, if any, is not |
| AchievementService.CalculateNextAvailableAchievements | app/Services/AchievementService.php:15-40 | The nested loops with their early break return exactly `NextAvailable(unlocked)` |
| AchievementService.ShortcutAgrees | app/Services/AchievementService.php:22-37 | The empty-input shortcut returns the same list as the general loop would, so the query is the general walk for every input |
| AchievementService.NextAvailablePerCategory | app/Services/AchievementService.php:30-37 | The result is the lessons category's contribution followed by the comments category's contribution, each its first locked name or nothing |
| AchievementService.NextAvailableMeaning | app/Services/AchievementService.php:30-37 | A returned name is locked and every earlier name of its category is unlocked; a category contributes nothing exactly when all its names are unlocked; at most two names are returned |
| AchievementService.NextAvailableForNewUser | app/Services/AchievementService.php:22-27 | No unlocked names gives ["First Lesson Watched", "First Comment Written"] |
| AchievementService.NextAvailableAfterSome | app/Services/AchievementService.php:30-39 | Unlocked {First Lesson Watched, 5 Lessons Watched, First Comment Written} gives ["10 Lessons Watched", "3 Comments Written"] |
| AchievementService.NextAvailableAllUnlocked | app/Services/AchievementService.php:30-39 | With all ten catalog names unlocked the result is empty |
| AchievementService.NextAvailableByMembership | app/Services/AchievementService.php:32 | Only membership of the catalog names matters: order, duplicates and names outside the catalog do not change the result |
| BadgeService.Badges | app/Services/BadgeService.php:7-15 | The tier table as a constant: Beginner 0, Intermediate 4, Advanced 8, Master 10, in the source's order (its contents are stated by the lemmas below) |
| BadgeService.BadgeThreshold | app/Listeners/UnlockBadgeListener.php:37-38 | The key lookup finds a threshold exactly when the name is a tier, and then it is that tier's threshold |
| BadgeService.BadgeTable | app/Services/BadgeService.php:9-14 | The table maps exactly Beginner to 0, Intermediate to 4, Advanced to 8 and Master to 10, and nothing else |
| BadgeService.TiersAscending | app/Services/BadgeService.php:10-13 | Thresholds strictly ascend in table order, tier names are distinct, and the first tier is Beginner with threshold 0 |
| BadgeService.SomeTierAlwaysMet | app/Services/BadgeService.php:10 | Every achievement count meets at least one tier |
| Store.MessageIdentifiesError | app/Listeners/UnlockAchievementListener.php:61-70 | The exception messages "User not found in the database" and "Unknown achievement: " + name thrown here, and "Unknown badge: " + name thrown at app/Listeners/UnlockBadgeListener.php:41, determine the error and the name they carry |
| AchievementRules.CategoryCheckers | app/Listeners/UnlockAchievementListener.php:32-47 | One category's table entries: keys exactly the category's names, each mapped to the checker the constructor picks for it |
| AchievementRules.CheckerTableKeys | app/Listeners/UnlockAchievementListener.php:24-50 | The checker table holds a name exactly when it is one of the ten catalog names |
| AchievementRules.CheckerTableEntry | app/Listeners/UnlockAchievementListener.php:31-47 | Entry k of category c is stored with its own checker: the "First ..." checker for the two first names, otherwise the category checker for that name and category |
| AchievementRules.NumberedEntryChecker | app/Listeners/UnlockAchievementListener.php:34-46 | Numbered names are never the two "First ..." names, so they get the category checker |
| AchievementRules.HandleAchievement | app/Listeners/UnlockAchievementListener.php:53-72 | A successful handle keeps the set of persisted users (its errors and effects are stated by the lemmas below) |
| AchievementRules.HandleAchievementErrors | app/Listeners/UnlockAchievementListener.php:59-71 | handle fails with UserNotFound exactly when the user is null or not persisted; it fails with UnknownAchievement(name) exactly when the user resolves and the name is not in the catalog; it succeeds exactly otherwise |
| AchievementRules.UnlockAchievementOnce | app/Listeners/UnlockAchievementListener.php:169-177 | Check-then-create: afterwards the name has exactly one row if it had none, and otherwise keeps the rows it had; other names keep their row counts; existing rows stay in place; counters and badge are untouched |
| AchievementRules.UnlockAllEffect | app/Listeners/UnlockAchievementListener.php:169-177 | A series of unlocks keeps the old rows as a prefix. A name has a row afterwards exactly when it had one or was unlocked. A newly unlocked name has exactly one row |
| AchievementRules.UnlockAllPresent | app/Listeners/UnlockAchievementListener.php:172-176 | Unlocking names that all have rows changes nothing |
| AchievementRules.UnlockAllTwice | app/Listeners/UnlockAchievementListener.php:169-177 | Repeating a series of unlocks changes nothing more |
| AchievementRules.RunFirstChecker | app/Listeners/UnlockAchievementListener.php:123-153 | The checker of "First Lesson Watched" or "First Comment Written" unlocks that name exactly when the category's count is at least 1 |
| AchievementRules.NumberedLessonsCheck | app/Listeners/UnlockAchievementListener.php:87-102 | checkLessonsWatched on "{n} Lessons Watched" with n at least 2 unlocks "First Lesson Watched" when the user has watched at least one lesson, then the name itself when at least n, and nothing else |
| AchievementRules.NumberedCommentsCheck | app/Listeners/UnlockAchievementListener.php:105-120 | checkCommentsWritten on "{n} Comments Written" with n at least 2 unlocks "First Comment Written" when the user has written at least one comment, then the name itself when at least n, and nothing else |
| AchievementRules.RunLessonsChecker | app/Listeners/UnlockAchievementListener.php:133-143 | The checker of a numbered lessons entry performs exactly the unlocks the entry's threshold earns from the watched count |
| AchievementRules.RunCommentsChecker | app/Listeners/UnlockAchievementListener.php:156-166 | The checker of a numbered comments entry performs exactly the unlocks the entry's threshold earns from the comment count |
| AchievementRules.HandleCatalogAchievement | app/Listeners/UnlockAchievementListener.php:53-72 | handle on entry k of category c for a persisted user succeeds. It changes only that user, through the unlocks earned from that category's count: the first name at count 1 or more, and entry k at its threshold. No other catalog name is touched, intermediate tiers included |
| AchievementRules.HandleAchievementEffect | app/Listeners/UnlockAchievementListener.php:133-166 | Only the user's rows change and old rows stay in place. A name has a row afterwards exactly when it had one, or it is the handled name and the count reaches that name's threshold, or it is the category's first name and the count is at least 1. No name gets a second row |
| AchievementRules.HandleAchievementThreshold | app/Listeners/UnlockAchievementListener.php:133-166 | For a name not yet unlocked, handle unlocks it exactly when the count reaches its threshold; a count of threshold minus one leaves it locked (for the first names: a count of 1 unlocks, 0 does not) |
| AchievementRules.HandleWithoutActivity | app/Listeners/UnlockAchievementListener.php:123-166 | A user with a count of zero in a category is left unchanged by handle on any of that category's names |
| AchievementRules.HandleAchievementIdempotent | app/Listeners/UnlockAchievementListener.php:169-177 | Handling the same name again with the same counts succeeds and changes nothing |
| AchievementRules.HandleKeepsRowsUnique | app/Listeners/UnlockAchievementListener.php:169-177 | If no name had two rows before handle, none has two rows after it |
| AchievementListener.UnlockAchievementListener.constructor | app/Listeners/UnlockAchievementListener.php:18-21 | The new listener is Valid: its checker table is the table built from the catalog |
| AchievementListener.UnlockAchievementListener.InitializeAchievementCheckers | app/Listeners/UnlockAchievementListener.php:24-50 | The nested loops over categories and names leave exactly the catalog's checker table in the field |
| AchievementListener.UnlockAchievementListener.Handle | app/Listeners/UnlockAchievementListener.php:53-72 | On a Valid listener (the table the constructor builds), handle reports the error of the handle function and writes nothing, or it writes exactly the users table that function computes |
| AchievementListener.UnlockAchievementListener.RunChecker | app/Listeners/UnlockAchievementListener.php:65-67 | Calling a stored checker changes only that user's record, as the checker's function says |
| AchievementListener.UnlockAchievementListener.CheckAchievement | app/Listeners/UnlockAchievementListener.php:75-84 | The category dispatch changes only that user's record, and leaves it as it was for a category other than the two known ones |
| AchievementListener.UnlockAchievementListener.CheckLessonsWatched | app/Listeners/UnlockAchievementListener.php:87-102 | No number in the name: nothing changes. Number 1: the first-lesson check runs. Any other number: the generic lessons check with that number runs |
| AchievementListener.UnlockAchievementListener.CheckCommentsWritten | app/Listeners/UnlockAchievementListener.php:105-120 | No number in the name: nothing changes. Number 1: the first-comment check runs. Any other number: the generic comments check with that number runs |
| AchievementListener.UnlockAchievementListener.CheckFirstLessonWatched | app/Listeners/UnlockAchievementListener.php:123-130 | "First Lesson Watched" is unlocked when the user has watched a lesson; otherwise nothing changes |
| AchievementListener.UnlockAchievementListener.CheckGenericLessonsWatched | app/Listeners/UnlockAchievementListener.php:133-143 | The first-lesson check runs, then "{threshold} Lessons Watched" is unlocked when the watched count reaches the threshold |
| AchievementListener.UnlockAchievementListener.CheckFirstCommentWritten | app/Listeners/UnlockAchievementListener.php:146-153 | "First Comment Written" is unlocked when the user has written a comment; otherwise nothing changes |
| AchievementListener.UnlockAchievementListener.CheckGenericCommentsWritten | app/Listeners/UnlockAchievementListener.php:156-166 | The first-comment check runs, then "{threshold} Comments Written" is unlocked when the comment count reaches the threshold |
| AchievementListener.UnlockAchievementListener.UnlockAchievement | app/Listeners/UnlockAchievementListener.php:169-177 | A row is appended for the user only when no row carries the name; every other user is untouched |
| BadgeRules.HandleBadge | app/Listeners/UnlockBadgeListener.php:25-43 | A successful handle keeps the set of persisted users (its errors and effects are stated by the lemmas below) |
| BadgeRules.HandleBadgeErrors | app/Listeners/UnlockBadgeListener.php:25-43 | handle fails with UserNotFound exactly when the user is null or not persisted; it fails with UnknownBadge(name) exactly when the user resolves and the name is none of the four tiers; it succeeds exactly otherwise |
| BadgeRules.HandleBadgeEffect | app/Listeners/UnlockBadgeListener.php:45-56 | Only the user's badge changes, never the rows or counters. The badge becomes the tier's name exactly when the user has at least the tier's threshold of achievement rows, whatever the old badge was. Otherwise it stays as it was |
| BadgeRules.BeginnerAlwaysSet | app/Listeners/UnlockBadgeListener.php:45-50 | Handling Beginner for any persisted user sets the badge to Beginner |
| BadgeRules.HandleBadgeKeepsHeldTier | app/Listeners/UnlockBadgeListener.php:45-56 | A user already holding the candidate tier is left unchanged, however many rows they have |
| BadgeRules.HandleBadgeIdempotent | app/Listeners/UnlockBadgeListener.php:25-56 | Handling the same tier again succeeds and changes nothing more |
| BadgeRules.LowerTierOverwrites | app/Listeners/UnlockBadgeListener.php:52-56 | A user holding tier j, with rows that meet its threshold, is moved down to a lower tier i when tier i is handled: there is no monotonicity check |
| BadgeListener.UnlockBadgeListener.Handle | app/Listeners/UnlockBadgeListener.php:25-43 | handle reports the error of the handle function and writes nothing, or writes exactly the users table that function computes |
| BadgeListener.UnlockBadgeListener.CheckBadgeUnlock | app/Listeners/UnlockBadgeListener.php:45-50 | The badge is unlocked when the number of achievement rows reaches the given count; otherwise nothing changes |
| BadgeListener.UnlockBadgeListener.UnlockBadge | app/Listeners/UnlockBadgeListener.php:52-56 | Only the user's badge column changes, to the given name |
| AchievementsController.CalculateNextAvailableAchievements | app/Http/Controllers/AchievementsController.php:31-56 | The controller's copy returns exactly `AchievementService.NextAvailable(unlocked)`, so it agrees with the service's method on every input |
| AchievementsController.CalculateBadgeProgress | app/Http/Controllers/AchievementsController.php:58-76 | The loop, which returns from inside as soon as a tier is not met where the source breaks and then returns, gives exactly the tier walk's (current, next, remaining) for the user's number of achievement rows |
| AchievementsController.WalkMeaning | app/Http/Controllers/AchievementsController.php:66-73 | On ascending tiers the met tiers form a prefix. The walk ends on the last met tier, or keeps the default when none is met. It names the first unmet tier and the distance to it, or '' and 0 when every tier is met |
| AchievementsController.BadgeProgressBrackets | app/Http/Controllers/AchievementsController.php:62-73 | The current badge is the last tier met, and one always is. When a next tier exists, the current threshold is at most the count, the count is below the next threshold, and remaining is the difference, which is positive. Past the top tier the next badge is '' and remaining is 0 |
| AchievementsController.BadgeProgressExamples | app/Http/Controllers/AchievementsController.php:58-76 | The results at the table's boundaries: 0 gives (Beginner, Intermediate, 4), 4 gives (Intermediate, Advanced, 4), 8 gives (Advanced, Master, 2), and 10 or more gives (Master, '', 0) |

## Left out

- The HTTP action `index` is not modelled: the JSON response, route-model binding and the 404 for an unknown user are framework plumbing.
- Eloquent queries are replaced by one record per user with two counters and a list of row names.
  - `lessons()->wherePivot('watched', true)->exists()` and `watched()->count()` read the same `watched` counter. The model does not capture a database where these two relations disagree.
  - `comments()->exists()` and `comments()->count()` read `comments`.
  - `achievements()->count()` is the number of rows.
- The event objects are replaced by their two fields:
  - The user is an optional id. None stands for a null user or one that was never saved.
  - `User::find` is membership in the users map.
  - The listeners work on the stored record, not on a possibly stale in-memory `$user` object.
- Exceptions are modelled as error values. The exception class and propagation through the event dispatcher are not modelled.
- Events, dispatch and the queue imports of the badge listener carry no logic and are not part of this model.
- Concurrency is not modelled. The check-then-create in `unlockAchievement` is not atomic, so two concurrent handlers could both create a row. Only sequential idempotence and uniqueness are proved.
- Digits.ExtractNumber: the regular-expression match is modelled as a direct scan for the first run of ASCII digits, and `intval` as an unbounded value. In the source a run whose value is above PHP_INT_MAX saturates to PHP_INT_MAX; the model keeps the unbounded value.
- The `$badgeCheckers` field of the badge listener is declared but never used. It is not modelled.
- `getAchievements` and `getBadges` return literals. As Dafny constants they are trivially the same on every call and free of side effects, so no separate lemma states this.
- The badge column's initial value comes from a migration, which is not part of this model. The badge is an optional name.
- The system's documentation describes badges as only moving up. The code overwrites the badge with any tier the rows qualify for. The model follows the code (`BadgeRules.LowerTierOverwrites`).
- A unit test of the achievement listener expects handling only the top tiers to also unlock the intermediate ones. The code does not do this, and the model follows the code (`AchievementRules.HandleCatalogAchievement`).
- A feature test expects `next_badge` to be null past the top tier. The code returns `''`, and the model follows the code.
- A badge-service test calls `BadgeService::calculateBadgeProgress`, which that class does not define. Badge progress is modelled from the controller's private method only.
- Test helpers that simulate unlocking are test scaffolding, not product behaviour, and are not modelled.

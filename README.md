# Tome: a verified model of the Hardcover scraper and the tome business rules

Tome is a book-tracking application. Its backend is a set of Spring services:

- **tome-auth** handles accounts, e-mail verification codes and the password rule.
- **tome-content** holds the catalogue of books, authors and genres.
- **tome-user-data** handles shelves, reading sessions, lists, friendships, the friends' activity feed and reading statistics.

A Python scraper fills the catalogue from the Hardcover GraphQL API.
It resumes an unfinished run or starts a new one.
It then fetches pages of popular books, imports each book's default physical edition with its authors and genres, and keeps a per-run ledger in `scraper_runs`.

This project models the core of both parts in Dafny and proves properties of the model.

- **Scraper** (`editions.dfy`, `scraper_store.dfy`, `scraper.dfy`):
  - The PostgreSQL database is the class `ScraperStore.Database`. Its fields hold the rows of `books`, `authors`, `genres`, `book_authors`, `book_genres`, `scraper_runs` and `scraper_errors`.
  - A row's id is its position plus one.
  - The checks `import_edition` makes before inserting are pure functions in `Editions`. So are the author and genre loops.
  - `HardcoverScraper.run` is the method `Scraper.HardcoverScraper.Run`, split into `Begin`, `Pages`, `Step` and `Finish`. It is proved against the ghost predicates `Ledger` (what the run row adds up to) and `Trace` (the offsets and times of the requests).
  - The API is an oracle: a sequence of pages, with empty pages once it is exhausted.
  - A database error raised while an edition is written is a parameter, `fault`. The clock is an integer field.
  - The shutdown signal arrives at a given check of the running flag.
- **Services** (the other files):
  - Each stateful service is a class whose fields are its repositories. Examples: `Friendships.FriendshipService`, `Shelf.ShelfStore`, `Lists.ListStore`, `ReadingSessions.SessionLog`, `Catalog.CatalogStore` and `Auth.UserService`.
  - In those fields a soft-deleted row keeps its place, and a hard-deleted row becomes `None`.
  - Repository queries are functions that filter the way their JPQL or derived query does.
  - "now" and "today" are parameters, and so are other-service lookups (the book catalogue seen from tome-user-data).
  - `PasswordEncoder.encode` / `matches` and the six `SecureRandom` draws are parameters too.
  - Statistics, streaks, the feed, the password validator and the four enum parsers are functions. Where the source loops over mutable state, they are methods, each proved against a function.

`wrappers.dfy` holds the `Option` type. `text.dfy` holds the ASCII string operations the sources use: `strip`, `lower` / `toUpperCase`, `replace`, `contains` and decimal rendering.

Where the documented design and the code differ, the model follows the code:

- `import_edition` uses one savepoint per edition, so an edition is imported all or nothing. Author and genre links are not isolated from each other.
- There are no in-process caches of authors or genres: the database is queried every time.
- When no tag reaches the threshold, the genre fallback takes every tag that names a known genre, not only the first one.
- The password patterns are whole-string matches and `.` matches no line terminator, so a password that contains a line break fails all three patterns and is rejected as lacking an upper-case letter.

## Model

| member | source | states |
|---|---|---|
| Auth.UserByEmail | tome-backend/tome-auth/src/main/java/com/safegergis/tome_auth/service/UserService.java:163-167 | a live user with that e-mail address, and nothing only when no live user from the start position has it |
| Auth.TokenFor | tome-backend/tome-auth/src/main/java/com/safegergis/tome_auth/service/UserService.java:86-88 | an e-mail verification token of that user with that code, and nothing only when there is none from the start position |
| Auth.LatestUnverified | tome-backend/tome-auth/src/main/java/com/safegergis/tome_auth/service/UserService.java:117-120 | the user's newest e-mail verification token that is not verified, and nothing exactly when every such token of theirs is verified |
| Auth.ResendRefusalCannotFire | tome-backend/tome-auth/src/main/java/com/safegergis/tome_auth/service/UserService.java:117-124 | the refusal test as written holds for no token list, while a user whose only token is verified has already verified their address |
| Auth.AlphabetIsUpperAndDigits | tome-backend/tome-auth/src/main/java/com/safegergis/tome_auth/service/UserService.java:39 | every code character is an upper-case ASCII letter or a digit |
| Auth.CodesSurviveCaseChanges | tome-backend/tome-auth/src/main/java/com/safegergis/tome_auth/service/UserService.java:87 | upper-casing leaves an issued code unchanged, even after it was typed in lower case |
| Auth.GenerateCode | tome-backend/tome-auth/src/main/java/com/safegergis/tome_auth/service/UserService.java:139-144 | the code has six characters, each the alphabet character at the random draw's index |
| Auth.Login | tome-backend/tome-auth/src/main/java/com/safegergis/tome_auth/service/UserService.java:159-173 | login succeeds exactly when a live account has the address and the password matches its hash, and returns that account; every failure carries "Invalid email or password" |
| Auth.LoginNeedsAMatchingAccount | tome-backend/tome-auth/src/main/java/com/safegergis/tome_auth/service/UserService.java:159-173 | with unique accounts, login succeeds exactly when some live account with that address matches the password |
| Auth.UserService.constructor | tome-backend/tome-auth/src/main/java/com/safegergis/tome_auth/service/UserService.java:30-41 | a service with no users and no tokens |
| Auth.UserService.IssueCode | tome-backend/tome-auth/src/main/java/com/safegergis/tome_auth/service/UserService.java:139-156 | a six-character code from the draws is stored as a new, unverified e-mail token of the user that expires 24 hours later |
| Auth.UserService.Register | tome-backend/tome-auth/src/main/java/com/safegergis/tome_auth/service/UserService.java:43-80 | a taken username and then a taken e-mail address are refused and change nothing; otherwise the user is appended with the encoded password and one token is issued |
| Auth.UserService.VerifyEmail | tome-backend/tome-auth/src/main/java/com/safegergis/tome_auth/service/UserService.java:82-107 | the code is upper-cased; an unknown code, an already verified token and an expired token are refused in that order and change nothing; otherwise only that token is stamped verified |
| Auth.UserService.Resend | tome-backend/tome-auth/src/main/java/com/safegergis/tome_auth/service/UserService.java:109-137 | an unknown address fails; an address already verified is refused; otherwise every e-mail token of the user is replaced by exactly one new one |
| Auth.WithoutEmailTokens | tome-backend/tome-auth/src/main/java/com/safegergis/tome_auth/service/UserService.java:127-128 | exactly the tokens that are not the user's e-mail verification tokens are kept, and no token is added |
| Auth.ResendLeavesOneToken | tome-backend/tome-auth/src/main/java/com/safegergis/tome_auth/service/UserService.java:126-131 | after a resend the user holds exactly one e-mail verification token, the new one |
| Auth.FilterKeepsWellIssued | tome-backend/tome-auth/src/main/java/com/safegergis/tome_auth/service/UserService.java:126-128 | deleting a user's tokens keeps every remaining token well issued |
| Auth.AccountsStayUnique | tome-backend/tome-auth/src/main/java/com/safegergis/tome_auth/service/UserService.java:47-65 | adding a user whose username and e-mail are both free keeps usernames and e-mail addresses unique |
| Enums.ConstantNameIsItsOwnKey | tome-backend/tome-user-data/src/main/java/com/safegergis/tome_user_data/enums/ReadingStatus.java:20 | a constant name is unchanged by upper-casing and by the '-' to '_' mapping |
| Enums.KebabSpellingKeysBack | tome-backend/tome-user-data/src/main/java/com/safegergis/tome_user_data/enums/ReadingStatus.java:20 | the lower-case hyphenated spelling of a constant name maps back to it |
| Enums.ParseReadingStatus | tome-backend/tome-user-data/src/main/java/com/safegergis/tome_user_data/enums/ReadingStatus.java:13-24 | null or empty is refused with its own message; a status is parsed exactly when its name is the input upper-cased with '-' as '_', and that status is the result; any other input is refused as unknown, with the input in the message |
| Enums.ReadingStatusRoundTrip | tome-backend/tome-user-data/src/main/java/com/safegergis/tome_user_data/enums/ReadingStatus.java:3-24 | every status parses back from its constant name and from its kebab-case spelling |
| Enums.ParseListType | tome-backend/tome-user-data/src/main/java/com/safegergis/tome_user_data/enums/ListType.java:12-22 | the same three cases for list types |
| Enums.ListTypeRoundTrip | tome-backend/tome-user-data/src/main/java/com/safegergis/tome_user_data/enums/ListType.java:3-22 | every list type parses back from both spellings |
| Enums.ParseFriendRequestStatus | tome-backend/tome-user-data/src/main/java/com/safegergis/tome_user_data/enums/FriendRequestStatus.java:14-23 | the same three cases for friend request statuses |
| Enums.FriendRequestStatusRoundTrip | tome-backend/tome-user-data/src/main/java/com/safegergis/tome_user_data/enums/FriendRequestStatus.java:6-23 | every friend request status parses back from both spellings |
| Enums.ParseReadingMethod | tome-backend/tome-user-data/src/main/java/com/safegergis/tome_user_data/enums/ReadingMethod.java:12-22 | the same three cases, with the input only upper-cased, so a hyphen is never mapped |
| Enums.ReadingMethodRoundTrip | tome-backend/tome-user-data/src/main/java/com/safegergis/tome_user_data/enums/ReadingMethod.java:3-22 | every reading method parses back from its constant name and from its lower-case name |
| Passwords.Validate | tome-backend/tome-auth/src/main/java/com/safegergis/tome_auth/validation/PasswordValidator.java:18-44 | a password is accepted iff it is present and each of the three whole-string patterns finds an upper-case letter, a lower-case letter and a digit; a rejection reports one message, upper-case before lower-case before digit, and null keeps the annotation's message; nothing about length or other characters |
| Passwords.LineBreakRejected | tome-backend/tome-auth/src/main/java/com/safegergis/tome_auth/validation/PasswordValidator.java:8-10 | because '.' matches no line terminator, a password holding a line break fails all three patterns and is reported as lacking an upper-case letter |
| Friendships.CreateFriendship | tome-backend/tome-user-data/src/main/java/com/safegergis/tome_user_data/service/FriendshipService.java:388-396 | the stored pair is the two users with the smaller id first, whatever order they were given in |
| Friendships.RelationOf | tome-backend/tome-user-data/src/main/java/com/safegergis/tome_user_data/service/FriendshipService.java:351-386 | "friends" iff a live friendship joins the pair; "pending_sent" iff not friends and the user has a pending request out; "pending_received" iff neither of those and the target has one out; each carries the id of a row that really links the pair |
| Friendships.SendRefusal | tome-backend/tome-user-data/src/main/java/com/safegergis/tome_user_data/service/FriendshipService.java:53-88 | the refusal in the source's order: self-request, unknown addressee, existing friendship in either order, the addressee's pending request, a pending request of one's own; no refusal iff none of these holds |
| Friendships.FriendshipService.Send | tome-backend/tome-user-data/src/main/java/com/safegergis/tome_user_data/service/FriendshipService.java:49-109 | a refused request changes nothing; otherwise an earlier rejected request between the pair is soft-deleted, a new pending request is appended and its id returned, and the invariant (one live request and one live friendship per pair, pending only between strangers) is kept |
| Friendships.AcceptAsWritten | tome-backend/tome-user-data/src/main/java/com/safegergis/tome_user_data/service/FriendshipService.java:115-149 | the source's accept: succeeds iff the id names a request, for this addressee, with status PENDING, deleted or not |
| Friendships.CancelledRequestCanBeAccepted | tome-backend/tome-user-data/src/main/java/com/safegergis/tome_user_data/service/FriendshipService.java:117-138 | a request cancelled by its sender is still accepted, and the pair then holds a friendship next to a live pending request |
| Friendships.FriendshipService.Accept | tome-backend/tome-user-data/src/main/java/com/safegergis/tome_user_data/service/FriendshipService.java:115-149 | not found for an unknown or deleted id, forbidden for anyone but the addressee, refused unless PENDING; on success a friendship stored in ascending order is added, the request is soft-deleted, both sides now see "friends", and the invariant is kept; nothing changes on error |
| Friendships.FriendshipService.Reject | tome-backend/tome-user-data/src/main/java/com/safegergis/tome_user_data/service/FriendshipService.java:151-175 | the same three refusals for the addressee; on success only that request changes, to REJECTED, and it is not deleted |
| Friendships.FriendshipService.Cancel | tome-backend/tome-user-data/src/main/java/com/safegergis/tome_user_data/service/FriendshipService.java:177-201 | refusals for a missing id, anyone but the requester, a non-pending request; on success the request is soft-deleted and, when it was live, the pair has no relation left |
| Friendships.FriendshipService.Unfriend | tome-backend/tome-user-data/src/main/java/com/safegergis/tome_user_data/service/FriendshipService.java:324-339 | not found unless the two are friends; otherwise exactly the friendship rows linking them are soft-deleted and they are no longer friends |
| Friendships.SentIsConsistent | tome-backend/tome-user-data/src/main/java/com/safegergis/tome_user_data/service/FriendshipService.java:91-104 | appending a pending request between strangers with no pending request, after soft-deleting their rejected one, keeps the invariant |
| Friendships.AcceptedIsConsistent | tome-backend/tome-user-data/src/main/java/com/safegergis/tome_user_data/service/FriendshipService.java:130-138 | replacing a live pending request by a friendship keeps the invariant |
| Friendships.CancelledLeavesNoRelation | tome-backend/tome-user-data/src/main/java/com/safegergis/tome_user_data/service/FriendshipService.java:193-195 | withdrawing the only live request between strangers keeps the invariant and leaves the relation "none" |
| Friendships.UnfriendedIsConsistent | tome-backend/tome-user-data/src/main/java/com/safegergis/tome_user_data/service/FriendshipService.java:324-339 | soft-deleting the friendship of a pair keeps the invariant and ends their "friends" status |
| Statistics.BreakdownFor | tome-backend/tome-user-data/src/main/java/com/safegergis/tome_user_data/service/StatisticsService.java:267-300 | a method with no row of its own gets the all-zero breakdown; any other breakdown is copied from a row for that method |
| Statistics.GetReadingMethodStatistics | tome-backend/tome-user-data/src/main/java/com/safegergis/tome_user_data/service/StatisticsService.java:233-314 | each method's breakdown is that of the last row naming it, or all zeros; the total is the sum of all sessions; the preferred method is absent iff no row has a session, and otherwise is the method of the first row holding the maximum session count |
| Statistics.CountsSplitByStatus | tome-backend/tome-user-data/src/main/java/com/safegergis/tome_user_data/service/StatisticsService.java:337-364 | the read, currently-reading and want-to-read columns of a genre or author count its occurrences on books with that status; the total adds the did-not-finish occurrences to those three |
| Statistics.AddRefs | tome-backend/tome-user-data/src/main/java/com/safegergis/tome_user_data/service/StatisticsService.java:343-363 | the inner loop: counting one book's genres or authors into the map is the fold of computeIfAbsent and the per-status counters |
| Statistics.TallyAllCounts | tome-backend/tome-user-data/src/main/java/com/safegergis/tome_user_data/service/StatisticsService.java:337-364 | the map after the shelf holds, for each id, its reference counts, and has an entry exactly for the ids that occur on some book |
| Statistics.Aggregate | tome-backend/tome-user-data/src/main/java/com/safegergis/tome_user_data/service/StatisticsService.java:334-364 | after the shelf loop the map has an entry exactly for the genres or authors that occur, each with its reference counts and the name its first occurrence carried (computeIfAbsent); books with no details or no list are skipped |
| Statistics.SortByRead | tome-backend/tome-user-data/src/main/java/com/safegergis/tome_user_data/service/StatisticsService.java:376 | the result is ordered by books read, descending, and holds exactly the tallies of its input |
| Statistics.SortByReadPermutes | tome-backend/tome-user-data/src/main/java/com/safegergis/tome_user_data/service/StatisticsService.java:376 | sorting is a permutation: every tally occurs as often as before |
| Statistics.GetFacetStatistics | tome-backend/tome-user-data/src/main/java/com/safegergis/tome_user_data/service/StatisticsService.java:316-378 | an empty shelf gives the empty list; a negative limit on a non-empty shelf is an error; otherwise at most `limit` tallies with distinct ids, sorted by books read, each with the true counts of its id and the name of its first occurrence, and every genre or author left out read no more books than every one kept; getAuthorStatistics (385-445) is the same with the authors list |
| Statistics.TopCoversCounted | tome-backend/tome-user-data/src/main/java/com/safegergis/tome_user_data/service/StatisticsService.java:367-376 | every genre or author with a positive total either made the cut or the cut is full and each tally kept read at least as many books as it |
| Statistics.BumpAllNames | tome-backend/tome-user-data/src/main/java/com/safegergis/tome_user_data/service/StatisticsService.java:344-345 | counting one book's genres keeps a name already in the map and otherwise takes the name of the first of them with that id |
| Statistics.TallyAllNames | tome-backend/tome-user-data/src/main/java/com/safegergis/tome_user_data/service/StatisticsService.java:334-364 | the name the map holds for an id after the shelf loop is the name of its first occurrence on the shelf |
| Statistics.PermutedIdsStayDistinct | tome-backend/tome-user-data/src/main/java/com/safegergis/tome_user_data/service/StatisticsService.java:367-376 | re-ordering the tallies (the sort) keeps their ids distinct |
| Statistics.CompletionCounts | tome-backend/tome-user-data/src/main/java/com/safegergis/tome_user_data/service/StatisticsService.java:469-474 | started counts READ, DID_NOT_FINISH and CURRENTLY_READING books; completed and did-not-finish together never exceed started, nor started the shelf |
| Statistics.StartedPlusWantedIsShelf | tome-backend/tome-user-data/src/main/java/com/safegergis/tome_user_data/service/StatisticsService.java:469-474 | the started books and the want-to-read books make up the whole shelf |
| Streaks.CurrentStreak | tome-backend/tome-user-data/src/main/java/com/safegergis/tome_user_data/service/StatisticsService.java:542-559 | the walk from today counts at most every date once |
| Streaks.CurrentStart | tome-backend/tome-user-data/src/main/java/com/safegergis/tome_user_data/service/StatisticsService.java:542-559 | a start date exists iff the current streak is positive, and it is a session date equal to today or to yesterday |
| Streaks.RunEndingAt | tome-backend/tome-user-data/src/main/java/com/safegergis/tome_user_data/service/StatisticsService.java:562-589 | the run of consecutive days ending at a position has length at least 1 and at most the number of dates up to it |
| Streaks.ScanFinalIsLongestRun | tome-backend/tome-user-data/src/main/java/com/safegergis/tome_user_data/service/StatisticsService.java:562-596 | the length the longest-streak loop and its final-run check record is the longest run of consecutive days in the list |
| Streaks.ConsecutiveBlockBounded | tome-backend/tome-user-data/src/main/java/com/safegergis/tome_user_data/service/StatisticsService.java:562-596 | no block of consecutive days anywhere in the list is longer than that longest run |
| Streaks.OnOrAfter | tome-backend/tome-user-data/src/main/java/com/safegergis/tome_user_data/service/StatisticsService.java:605-608 | the heatmap dates are exactly the input dates on or after the cut-off; on a newest-first list they are a prefix of it, still newest first |
| Streaks.CalculateStreaks | tome-backend/tome-user-data/src/main/java/com/safegergis/tome_user_data/service/StatisticsService.java:532-615 | no dates give all zeros and no dates; otherwise the current streak is the backward walk from today, the longest is the larger of the longest consecutive run and the current streak, its dates are those the scan records or, when the current streak wins, its start and today, and the active dates are those within 365 days of today |
| Streaks.CurrentStreakSpansGaps | tome-backend/tome-user-data/src/main/java/com/safegergis/tome_user_data/service/StatisticsService.java:548-559 | the walk as written counts 100, 98 and 96 as a streak of three days although 99 and 97 have no session; the corrected streak is one day |
| Streaks.IntendedStreakIsMaximalBlock | tome-backend/tome-user-data/src/main/java/com/safegergis/tome_user_data/service/StatisticsService.java:542-559 | the corrected current streak is zero iff neither today nor yesterday has a session, and otherwise is exactly the block of consecutive session days ending today, or yesterday when today has none |
| Streaks.FirstMaxEnd | tome-backend/tome-user-data/src/main/java/com/safegergis/tome_user_data/service/StatisticsService.java:562-596 | a position where a run of maximal length ends |
| Streaks.LongestRangeSpansRun | tome-backend/tome-user-data/src/main/java/com/safegergis/tome_user_data/service/StatisticsService.java:562-596 | the corrected longest-streak dates span exactly the longest run: their distance is its length and every day between them has a session |
| Streaks.ScanReportsNeighbourDates | tome-backend/tome-user-data/src/main/java/com/safegergis/tome_user_data/service/StatisticsService.java:574-580 | for the dates 10, 9, 8, 5 the loop as written records the longest streak as running from 5 to 8, while the run is 8 to 10 |
| ReadingSessions.Violation | tome-backend/tome-user-data/src/main/java/com/safegergis/tome_user_data/service/ReadingSessionService.java:78-100 | no violation iff the method's measure is positive (minutes for an audiobook, pages otherwise) and a given page range moves forward; each rule, checked in order, reports its own message, the page-range message exactly when the measure is positive and the range does not move forward |
| ReadingSessions.Logged | tome-backend/tome-user-data/src/main/java/com/safegergis/tome_user_data/service/ReadingSessionService.java:55-65 | the stored session copies the request for this user, with today's date when none is given |
| ReadingSessions.Progressed | tome-backend/tome-user-data/src/main/java/com/safegergis/tome_user_data/service/ReadingSessionService.java:103-133 | an existing entry becomes CURRENTLY_READING, a start is stamped only on a change of status with no start recorded, audio time grows by the minutes listened, pages go to the end page or forward by the pages read, and nothing else changes |
| ReadingSessions.Started | tome-backend/tome-user-data/src/main/java/com/safegergis/tome_user_data/service/ReadingSessionService.java:134-156 | with no entry, a new CURRENTLY_READING entry started now, whose progress is this session's alone and which has no finish, rating or notes |
| ReadingSessions.StartedIsProgressFromNothing | tome-backend/tome-user-data/src/main/java/com/safegergis/tome_user_data/service/ReadingSessionService.java:102-156 | the new entry is what advancing a blank, never-started entry would give |
| ReadingSessions.EntryFor | tome-backend/tome-user-data/src/main/java/com/safegergis/tome_user_data/service/ReadingSessionService.java:103 | finds the user's live entry for the book, and none iff the book is not on the user's shelf |
| ReadingSessions.PreferredIsMostUsed | tome-backend/tome-user-data/src/main/java/com/safegergis/tome_user_data/service/ReadingSessionService.java:253-283 | with sessions, the preferred method is used at least as often as any other among the newest twenty; ebook wins only when strictly ahead of physical, audiobook only when strictly ahead of both |
| ReadingSessions.OlderSessionsDoNotCount | tome-backend/tome-user-data/src/main/java/com/safegergis/tome_user_data/service/ReadingSessionService.java:254 | sessions beyond the newest twenty do not change the preferred method |
| ReadingSessions.OwnedSession | tome-backend/tome-user-data/src/main/java/com/safegergis/tome_user_data/service/ReadingSessionService.java:165-180 | the session is returned iff it exists and belongs to the user; a missing one is not found, another user's is forbidden |
| ReadingSessions.SessionLog.Log | tome-backend/tome-user-data/src/main/java/com/safegergis/tome_user_data/service/ReadingSessionService.java:45-76 | an unknown book or an ill-formed request is refused and nothing changes; otherwise the session is appended and its id returned, the user's entry for the book is advanced or a new one created, and the shelf keeps one entry per book |
| ReadingSessions.SessionLog.Delete | tome-backend/tome-user-data/src/main/java/com/safegergis/tome_user_data/service/ReadingSessionService.java:284-295 | not found or forbidden leaves every session; otherwise exactly that session is removed |
| ReadingSessions.SessionLog.Preferred | tome-backend/tome-user-data/src/main/java/com/safegergis/tome_user_data/service/ReadingSessionService.java:253-283 | over the user's sessions taken newest first, no preferred method iff the user has no session |
| ReadingSessions.NewEntryKeepsOnePerBook | tome-backend/tome-user-data/src/main/java/com/safegergis/tome_user_data/service/ReadingSessionService.java:135-154 | the entry created for a book not on the shelf keeps one entry per user and book |
| Shelf.Shelved | tome-backend/tome-user-data/src/main/java/com/safegergis/tome_user_data/service/UserBookService.java:57-70 | the new entry carries the request's fields, missing progress becomes 0, a CURRENTLY_READING entry is stamped started now and a READ entry finished now, and nothing else is stamped |
| Shelf.WithStatus | tome-backend/tome-user-data/src/main/java/com/safegergis/tome_user_data/service/UserBookService.java:184-202 | the status is set; the start changes iff the entry moves to CURRENTLY_READING with no start recorded; the finish and the abandonment date are stamped now only on entering READ or DID_NOT_FINISH from another status; no other field changes |
| Shelf.WithStatusIdempotent | tome-backend/tome-user-data/src/main/java/com/safegergis/tome_user_data/service/UserBookService.java:184-202 | setting the same status again, at any later time, changes nothing more |
| Shelf.Applied | tome-backend/tome-user-data/src/main/java/com/safegergis/tome_user_data/service/UserBookService.java:124-159 | each supplied field replaces the stored one and absent ones stay; a supplied status goes through the status rule, and without one status and stamps stay; user, book and reason never change |
| Shelf.EmptyChangesKeepEntry | tome-backend/tome-user-data/src/main/java/com/safegergis/tome_user_data/service/UserBookService.java:124-159 | an update that supplies no field leaves the entry unchanged |
| Shelf.Abandoned | tome-backend/tome-user-data/src/main/java/com/safegergis/tome_user_data/service/UserBookService.java:208-224 | whatever the prior status, the entry becomes DID_NOT_FINISH abandoned now for the given reason, and nothing else changes |
| Shelf.AbandonRestamps | tome-backend/tome-user-data/src/main/java/com/safegergis/tome_user_data/service/UserBookService.java:217-219 | unlike a status update to DID_NOT_FINISH, marking an already abandoned entry stamps a new date |
| Shelf.Owned | tome-backend/tome-user-data/src/main/java/com/safegergis/tome_user_data/service/UserBookService.java:80-91 | the entry is returned iff it exists and belongs to the user; a missing one is not found, another user's is forbidden |
| Shelf.ByStatus | tome-backend/tome-user-data/src/main/java/com/safegergis/tome_user_data/service/UserBookService.java:98-118 | exactly the user's entries, with the given status when one is given |
| Shelf.ShelfStore.Add | tome-backend/tome-user-data/src/main/java/com/safegergis/tome_user_data/service/UserBookService.java:40-74 | an unknown book or a second entry for the same user and book is refused and nothing changes; otherwise the new entry is appended, its id returned, and one entry per user and book is kept |
| Shelf.ShelfStore.Update | tome-backend/tome-user-data/src/main/java/com/safegergis/tome_user_data/service/UserBookService.java:124-159 | not found or forbidden changes nothing; otherwise exactly that entry is replaced by the updated one, which is returned |
| Shelf.ShelfStore.SetStatus | tome-backend/tome-user-data/src/main/java/com/safegergis/tome_user_data/service/UserBookService.java:165-179 | not found or forbidden changes nothing; otherwise exactly that entry moves to the new status by the status rule |
| Shelf.ShelfStore.MarkDidNotFinish | tome-backend/tome-user-data/src/main/java/com/safegergis/tome_user_data/service/UserBookService.java:208-224 | not found or forbidden changes nothing; otherwise exactly that entry is abandoned now for the reason |
| Shelf.ShelfStore.Remove | tome-backend/tome-user-data/src/main/java/com/safegergis/tome_user_data/service/UserBookService.java:230-240 | not found or forbidden changes nothing; otherwise the entry is deleted and the book is no longer on the user's shelf |
| Shelf.GetUserBooks | tome-backend/tome-user-data/src/main/java/com/safegergis/tome_user_data/controller/UserBookController.java:61-112 | an unparseable status is a bad request; the caller's own books, by status only when one is given; another user's books only as CURRENTLY_READING, the default there, and any other status is forbidden |
| Shelf.OthersSeeOnlyWhatIsBeingRead | tome-backend/tome-user-data/src/main/java/com/safegergis/tome_user_data/controller/UserBookController.java:86-108 | every entry listed for another user belongs to that user and is being read |
| Shelf.StatusParameter | tome-backend/tome-user-data/src/main/java/com/safegergis/tome_user_data/controller/UserBookController.java:149-164 | the status parameter is refused iff it does not parse; an accepted one names the status whose constant is the parameter upper-cased with hyphens as underscores |
| Shelf.StatusParameterAcceptsBothSpellings | tome-backend/tome-user-data/src/main/java/com/safegergis/tome_user_data/controller/UserBookController.java:149-164 | every status is accepted under its constant name and under its lower-case hyphenated spelling |
| Lists.OwnedList | tome-backend/tome-user-data/src/main/java/com/safegergis/tome_user_data/service/ListService.java:149-157 | the list is returned iff it is live and the caller's; a missing or deleted list is not found, another user's is forbidden |
| Lists.Viewed | tome-backend/tome-user-data/src/main/java/com/safegergis/tome_user_data/service/ListService.java:112-119 | a live list is returned iff the caller owns it or it is public; a missing one is not found, another user's private one forbidden |
| Lists.VisibleLists | tome-backend/tome-user-data/src/main/java/com/safegergis/tome_user_data/service/ListService.java:88-106 | exactly the target's live lists, all of them for the owner and only the public ones for anybody else, in id order |
| Lists.VisibleListsOpen | tome-backend/tome-user-data/src/main/java/com/safegergis/tome_user_data/service/ListService.java:88-119 | every list shown on a profile can be opened by the viewer |
| Lists.MaxOrder | tome-backend/tome-user-data/src/main/java/com/safegergis/tome_user_data/service/ListService.java:221-223 | for a list with rows, the largest position among them whatever its sign, which every book of the list is at or below; 0 for a list without rows, as COALESCE(MAX(book_order), 0) |
| Lists.Without | tome-backend/tome-user-data/src/main/java/com/safegergis/tome_user_data/service/ListService.java:249 | exactly the rows other than that book's row in that list |
| Lists.WithoutKeepsOncePerList | tome-backend/tome-user-data/src/main/java/com/safegergis/tome_user_data/service/ListService.java:249 | removing rows keeps a book at most once in a list |
| Lists.LastIndexOf | tome-backend/tome-user-data/src/main/java/com/safegergis/tome_user_data/service/ListService.java:280-290 | the last index at which the book is named, absent iff it is not named |
| Lists.Reordered | tome-backend/tome-user-data/src/main/java/com/safegergis/tome_user_data/service/ListService.java:280-290 | the rows stay in place with the same list and book; only positions change |
| Lists.FirstStranger | tome-backend/tome-user-data/src/main/java/com/safegergis/tome_user_data/service/ListService.java:274-278 | the first named book that is not in the list, absent iff every named book is in it |
| Lists.ReorderedNumbersInGivenOrder | tome-backend/tome-user-data/src/main/java/com/safegergis/tome_user_data/service/ListService.java:280-290 | a book named once gets its index in the request plus one as its position |
| Lists.DefaultListFor | tome-backend/tome-user-data/src/main/java/com/safegergis/tome_user_data/service/ListService.java:324-340 | the created default list is the user's, of that type, default and public, named "Currently Reading" or "To Be Read" with the matching description |
| Lists.DefaultListOf | tome-backend/tome-user-data/src/main/java/com/safegergis/tome_user_data/service/ListService.java:308 | the first default list of that type of the user, absent iff there is none (with one default of each kind, see DefaultListIsTheOne, the only one) |
| Lists.DefaultListIsTheOne | tome-backend/tome-user-data/src/main/java/com/safegergis/tome_user_data/repository/BookListRepository.java:26-27 | when each user has at most one default list of each type, the single-row query finds exactly that list, so it never meets several rows |
| Lists.ListStore.Create | tome-backend/tome-user-data/src/main/java/com/safegergis/tome_user_data/service/ListService.java:45-60 | a new custom list that is not default, private unless the request says public, appended with its id returned; the list books are untouched; at most one default list of each type per user before means the same after |
| Lists.ListStore.Update | tome-backend/tome-user-data/src/main/java/com/safegergis/tome_user_data/service/ListService.java:149-173 | not found, forbidden or a default list change nothing; otherwise name and description are overwritten and visibility changes only when given; at most one default list of each type per user before means the same after |
| Lists.ListStore.Delete | tome-backend/tome-user-data/src/main/java/com/safegergis/tome_user_data/service/ListService.java:179-195 | not found, forbidden or a default list change nothing; otherwise the list is only marked deleted and its books stay; at most one default list of each type per user before means the same after |
| Lists.ListStore.AddBook | tome-backend/tome-user-data/src/main/java/com/safegergis/tome_user_data/service/ListService.java:201-230 | not found, forbidden, an unknown book or a book already in the list change nothing; otherwise the book is appended at the list's largest position plus one (1 for an empty list), after every book of the list |
| Lists.ListStore.RemoveBook | tome-backend/tome-user-data/src/main/java/com/safegergis/tome_user_data/service/ListService.java:236-251 | not found, forbidden or a book not in the list change nothing; otherwise only that book's row is removed from the list |
| Lists.ListStore.Reorder | tome-backend/tome-user-data/src/main/java/com/safegergis/tome_user_data/service/ListService.java:257-293 | not found or forbidden changes nothing; a named book not in the list is reported before any change; otherwise each named book takes its index plus one and unnamed books keep theirs |
| Lists.ListStore.GetDefault | tome-backend/tome-user-data/src/main/java/com/safegergis/tome_user_data/service/ListService.java:300-319 | CUSTOM is refused; an existing default list of that type is returned unchanged; otherwise a public default list is created and returned; at most one default list of each type per user before means the same after |
| Lists.ReorderStep | tome-backend/tome-user-data/src/main/java/com/safegergis/tome_user_data/service/ListService.java:281-290 | one pass of the loop: giving the book named at index i position i + 1 extends the reorder by that index |
| Lists.ReorderedKeepsOncePerList | tome-backend/tome-user-data/src/main/java/com/safegergis/tome_user_data/service/ListService.java:280-290 | a reorder keeps a book at most once in a list |
| Catalog.WithFields | tome-backend/tome-content/src/main/java/com/safegergis/tome_content/service/BookService.java:142-155 | every scalar field comes from the request, a missing language becomes "en", and the link sets are left as they were |
| Catalog.AbsentIsbnMatchesAbsentIsbn | tome-backend/tome-content/src/main/java/com/safegergis/tome_content/repository/BookRepository.java:41 | a request with only a new ISBN-13 matches the duplicate query as called, because a stored book with a different ISBN-13 also has no ISBN-10; the intended check does not match it |
| Catalog.IsbnChecksAgreeOnFullRequests | tome-backend/tome-content/src/main/java/com/safegergis/tome_content/service/BookService.java:135-140 | when both ISBNs are supplied, the query as called and the intended check decide alike |
| Catalog.ByExternal | tome-backend/tome-content/src/main/java/com/safegergis/tome_content/repository/BookRepository.java:36 | over the live books (or authors) from the start position whose external id and source both equal the given ones: nothing iff none matches, the one row iff exactly one matches, and a refusal when two or more match (`IncorrectResultSizeDataAccessException`) |
| Catalog.GenreByName | tome-backend/tome-content/src/main/java/com/safegergis/tome_content/repository/GenreRepository.java:24 | over the live genres from the start position whose name equals the given one up to ASCII case: nothing iff none matches, the one genre iff exactly one matches, a refusal when two or more match |
| Catalog.GetGenreByName | tome-backend/tome-content/src/main/java/com/safegergis/tome_content/service/GenreService.java:52-56 | not found iff no genre matches the name in any ASCII case; the genre when exactly one matches; otherwise the several-rows refusal, and nothing else |
| Catalog.GenreFoundInAnyCase | tome-backend/tome-content/src/main/java/com/safegergis/tome_content/service/GenreService.java:52-56 | a stored genre asked for by its name in any ASCII case is never "not found"; any genre returned is that genre; it is returned whenever no other genre matches the name |
| Catalog.CaseVariantsAreAmbiguous | tome-backend/tome-content/src/main/java/com/safegergis/tome_content/service/GenreService.java:52-56 | genres "Fiction" and "fiction" satisfy the exact-name uniqueness that create and update keep, and asking for "fiction" is then refused as matching several rows |
| Catalog.CatalogStore.CheckLinks | tome-backend/tome-content/src/main/java/com/safegergis/tome_content/service/BookService.java:159-180 | reports an id of the set that names no author (genre) row; reports nothing iff every id names one |
| Catalog.CatalogStore.CreateBook | tome-backend/tome-content/src/main/java/com/safegergis/tome_content/service/BookService.java:133-182 | (BookCreated) a duplicate exactly when a supplied ISBN is already in use; otherwise an unknown author, then an unknown genre (with every author present), is not found; no other error; success iff none of these; each refusal changes nothing; otherwise the book with the request's fields and links is appended and its id returned |
| Catalog.CatalogStore.UpdateBook | tome-backend/tome-content/src/main/java/com/safegergis/tome_content/service/BookService.java:188-230 | the only errors are a missing book, then an unknown author, then an unknown genre (with every author present), each changing nothing; success iff none holds; then every field is overwritten, a missing language becomes "en", and link sets are replaced only when the request carries them |
| Catalog.CatalogStore.DeleteBook | tome-backend/tome-content/src/main/java/com/safegergis/tome_content/service/BookService.java:236-241 | a missing book is not found; otherwise that book alone is removed |
| Catalog.CatalogStore.FindOrCreateBook | tome-backend/tome-content/src/main/java/com/safegergis/tome_content/service/BookService.java:247-251 | the one book matching the external id and source is returned and nothing changes; several matches are refused and nothing changes; with no match the result and the books table are exactly createBook's (BookCreated) |
| Catalog.CatalogStore.LinkAuthor | tome-backend/tome-content/src/main/java/com/safegergis/tome_content/service/BookService.java:257-281 | book and author must both exist, the book first; adding puts the author in the book's set, removing takes it out, idempotently; refusals change nothing |
| Catalog.CatalogStore.LinkGenre | tome-backend/tome-content/src/main/java/com/safegergis/tome_content/service/BookService.java:287-311 | the same for genres |
| Catalog.CatalogStore.CreateAuthor | tome-backend/tome-content/src/main/java/com/safegergis/tome_content/service/AuthorService.java:72-90 | an exact name already taken is refused and nothing changes; otherwise the author is appended and its id returned, and names stay unique |
| Catalog.CatalogStore.UpdateAuthor | tome-backend/tome-content/src/main/java/com/safegergis/tome_content/service/AuthorService.java:96-116 | a missing author is not found; a change to another author's name is refused; keeping the name is allowed; otherwise every field is overwritten |
| Catalog.CatalogStore.DeleteAuthor | tome-backend/tome-content/src/main/java/com/safegergis/tome_content/service/AuthorService.java:122-127 | a missing author is not found; otherwise that author alone is removed |
| Catalog.CatalogStore.FindOrCreateAuthor | tome-backend/tome-content/src/main/java/com/safegergis/tome_content/service/AuthorService.java:153-157 | the one author matching the external id and source is returned and nothing changes; several matches are refused and nothing changes; with no match a taken name is refused, otherwise the author is appended and its id returned |
| Catalog.CatalogStore.CreateGenre | tome-backend/tome-content/src/main/java/com/safegergis/tome_content/service/GenreService.java:72-85 | an exact name already taken is refused and nothing changes; otherwise the genre is appended and its id returned |
| Catalog.CatalogStore.UpdateGenre | tome-backend/tome-content/src/main/java/com/safegergis/tome_content/service/GenreService.java:91-106 | a missing genre is not found; a change to a taken name is refused; otherwise name and description are overwritten |
| Catalog.CatalogStore.DeleteGenre | tome-backend/tome-content/src/main/java/com/safegergis/tome_content/service/GenreService.java:112-117 | a missing genre is not found; otherwise that genre alone is removed |
| Catalog.Lookup | tome-backend/tome-content/src/main/java/com/safegergis/tome_content/service/AuthorService.java:43-47 | the row is returned iff it exists (getAuthorById, getGenreById and getBookById alike) |
| Catalog.AppendKeepsUniqueAuthors | tome-backend/tome-content/src/main/java/com/safegergis/tome_content/service/AuthorService.java:74-76 | appending an author under a new name keeps names unique |
| Catalog.AppendKeepsUniqueGenres | tome-backend/tome-content/src/main/java/com/safegergis/tome_content/service/GenreService.java:74-76 | appending a genre under a new name keeps names unique |
| Editions.StripIfTruthy | tome-backend/scraper/hardcover_scraper.py:465-474 | a value is produced exactly when the field is present and non-empty |
| Editions.StripIfTruthyBlank | tome-backend/scraper/hardcover_scraper.py:465-474 | stripping never lengthens a value, and a present value strips to the empty string exactly when it is all whitespace |
| Editions.CheckIsbn | tome-backend/scraper/hardcover_scraper.py:483-487 | the check leaves a usable ISBN exactly when the value is non-empty, of the given length and all digits; anything it keeps is unchanged, and an empty string passes through as it is |
| Editions.IsbnKeptIffWellFormed | tome-backend/scraper/hardcover_scraper.py:465-487 | an ISBN survives import exactly when its trimmed form has the required length and is all digits |
| Editions.PageCount | tome-backend/scraper/hardcover_scraper.py:515-516 | a page count is stored exactly when it is given and positive, and then unchanged |
| Editions.IsbnProblem | tome-backend/scraper/hardcover_scraper.py:479-505 | both ISBNs missing, and both malformed, are each reported exactly when they hold; no report means a usable ISBN is left; every report is one of the four ISBN rejections |
| Editions.LanguageProblem | tome-backend/scraper/hardcover_scraper.py:523-528 | an edition passes exactly when it has no language object or one whose lower-cased name is "english" or "en"; otherwise it is refused as non-English or crashes on a null name |
| Editions.Screen | tome-backend/scraper/hardcover_scraper.py:464-528 | an edition that passes every check has a title that is not blank |
| Editions.ScreenTitleFirst | tome-backend/scraper/hardcover_scraper.py:464-477 | a null title crashes; a missing title is reported exactly when the title strips to nothing |
| Editions.ScreenMissingIsbns | tome-backend/scraper/hardcover_scraper.py:479-480 | "Missing both ISBNs" is reported exactly when the title is fine and neither ISBN is present and non-blank |
| Editions.ScreenInvalidIsbns | tome-backend/scraper/hardcover_scraper.py:482-490 | "Invalid ISBNs" is reported exactly when the title is fine, some ISBN is present and none is well formed |
| Editions.ScreenDuplicates | tome-backend/scraper/hardcover_scraper.py:492-505 | a duplicate report names a kept ISBN that a stored book already has; an ISBN-13 is reported only when the ISBN-10 is not a duplicate |
| Editions.ScreenLanguageLast | tome-backend/scraper/hardcover_scraper.py:523-528 | a non-English rejection comes only for an edition that passes every other check, and it carries the lower-cased language name |
| Editions.ScreenPassesIffAcceptable | tome-backend/scraper/hardcover_scraper.py:476-528 | an edition passes every check exactly when it has a title, a usable ISBN, no ISBN already stored, and no language or an English one, whatever the order of the checks |
| Editions.NewBook | tome-backend/scraper/hardcover_scraper.py:507-554 | the inserted row has the stripped title, the checked ISBNs, English as its language, the Hardcover edition id, and a positive page count if any |
| Editions.StoredIsbnIsWellFormedOrBlank | tome-backend/scraper/hardcover_scraper.py:483-487 | a stored ISBN is all digits of the right length, or the empty string the API sent |
| Editions.FindAuthor | tome-backend/scraper/hardcover_scraper.py:361-368 | finds the first row carrying the Hardcover author id, and nothing exactly when no row carries it |
| Editions.GetOrCreateAuthor | tome-backend/scraper/hardcover_scraper.py:351-391 | the returned id names a row carrying the Hardcover id; a known author is returned without change; otherwise a row with the given fields is appended and its id returned |
| Editions.GetOrCreateAuthorIdempotent | tome-backend/scraper/hardcover_scraper.py:361-391 | asking again for the same author changes nothing and gives the same id |
| Editions.GetOrCreateAuthorKeepsUnique | tome-backend/scraper/hardcover_scraper.py:361-388 | no two author rows come to carry the same Hardcover id |
| Editions.LinkAuthorsCounts | tome-backend/scraper/hardcover_scraper.py:558-591 | the count returned is the number of contributions whose author has a bio; author rows are only appended; links already there keep their author_order; each new link belongs to this book with an order above the starting count and at most the final one |
| Editions.LinkAuthorsOrder | tome-backend/scraper/hardcover_scraper.py:558-591 | the link a contribution with a bio creates carries author_order one more than the starting count plus the contributions with a bio before it |
| Editions.LinkAuthorsOrdersDistinct | tome-backend/scraper/hardcover_scraper.py:558-591 | no two links created by the loop share an author_order |
| Editions.LinkAuthorsLinksEvery | tome-backend/scraper/hardcover_scraper.py:562-590 | every contribution whose author has a bio ends with this book linked to the row carrying that author's Hardcover id |
| Editions.LinkAuthorsKeepsUnique | tome-backend/scraper/hardcover_scraper.py:572-578 | the contribution loop keeps Hardcover author ids unique in the table |
| Editions.FindGenre | tome-backend/scraper/hardcover_scraper.py:400-406 | finds the first genre whose name matches case-insensitively, and nothing exactly when none does |
| Editions.GetOrCreateGenre | tome-backend/scraper/hardcover_scraper.py:397-424 | the returned id names a genre with the same lower-cased name; a known genre is returned without change; otherwise the name is appended under the given spelling |
| Editions.GetOrCreateGenreIgnoresCase | tome-backend/scraper/hardcover_scraper.py:400-424 | once a genre is fetched or created, any other spelling of it finds the same row and creates nothing |
| Editions.LinkGenreKeepsUnique | tome-backend/scraper/hardcover_scraper.py:593-605 | linking one genre keeps genre names unique when compared case-insensitively |
| Editions.LinkGenresGrows | tome-backend/scraper/hardcover_scraper.py:593-605 | the genre loop keeps genre names case-insensitively unique, only appends genres, and only adds links of this book to existing genres |
| Editions.LinkGenresLinksEvery | tome-backend/scraper/hardcover_scraper.py:593-605 | every non-empty genre name ends linked to this book through a genre with the same lower-cased name |
| ActivityFeed.MakeActivity | tome-backend/tome-user-data/src/main/java/com/safegergis/tome_user_data/service/ActivityFeedService.java:120-124 | an activity carries its kind, subject, user and time, and its id is the kind's prefix followed by the subject id |
| ActivityFeed.FriendIds | tome-backend/tome-user-data/src/main/java/com/safegergis/tome_user_data/service/ActivityFeedService.java:190-204 | a user is listed exactly when a live friendship joins them to the requesting user, and no more ids than friendships are listed |
| ActivityFeed.Insert | tome-backend/tome-user-data/src/main/java/com/safegergis/tome_user_data/service/ActivityFeedService.java:178 | inserting one activity lengthens the list by one |
| ActivityFeed.InsertPermutes | tome-backend/tome-user-data/src/main/java/com/safegergis/tome_user_data/service/ActivityFeedService.java:178 | inserting adds exactly that activity and keeps every other |
| ActivityFeed.InsertKeepsDescending | tome-backend/tome-user-data/src/main/java/com/safegergis/tome_user_data/service/ActivityFeedService.java:178 | inserting into a newest-first list keeps it newest first |
| ActivityFeed.NewestFirstDescends | tome-backend/tome-user-data/src/main/java/com/safegergis/tome_user_data/service/ActivityFeedService.java:178 | the sort's result is ordered by timestamp, newest first |
| ActivityFeed.NewestFirstPermutes | tome-backend/tome-user-data/src/main/java/com/safegergis/tome_user_data/service/ActivityFeedService.java:178 | the sort's result holds exactly the activities it was given |
| ActivityFeed.NewestFirstSorts | tome-backend/tome-user-data/src/main/java/com/safegergis/tome_user_data/service/ActivityFeedService.java:178 | the sort orders newest first and is a permutation of its input |
| ActivityFeed.NewestFirstIsStable | tome-backend/tome-user-data/src/main/java/com/safegergis/tome_user_data/service/ActivityFeedService.java:178 | the sort is stable: activities with the same timestamp keep their order of the merged list |
| ActivityFeed.TakeNewestFrom | tome-backend/tome-user-data/src/main/java/com/safegergis/tome_user_data/service/ActivityFeedService.java:78-97 | what a source query keeps comes from the rows it filtered |
| ActivityFeed.SortNewestFirst | tome-backend/tome-user-data/src/main/java/com/safegergis/tome_user_data/service/ActivityFeedService.java:178 | the in-place sort leaves the array holding the stable newest-first order of its old contents |
| ActivityFeed.InsertAt | tome-backend/tome-user-data/src/main/java/com/safegergis/tome_user_data/service/ActivityFeedService.java:178 | one step of the in-place sort leaves the first i+1 cells as the newest-first insertion of cell i into the sorted prefix, and the rest unchanged |
| ActivityFeed.Take | tome-backend/tome-user-data/src/main/java/com/safegergis/tome_user_data/service/ActivityFeedService.java:80 | a query's first page is a prefix of its result of at most the page size, and all of it when it is shorter |
| ActivityFeed.RecentSessions | tome-backend/tome-user-data/src/main/java/com/safegergis/tome_user_data/service/ActivityFeedService.java:78-81 | at most 100 activities, each a well-named reading-session activity of a friend |
| ActivityFeed.SessionActivities | tome-backend/tome-user-data/src/main/java/com/safegergis/tome_user_data/service/ActivityFeedService.java:113-128 | an activity is listed exactly when it is made from a session of one of the friends |
| ActivityFeed.RecentLists | tome-backend/tome-user-data/src/main/java/com/safegergis/tome_user_data/service/ActivityFeedService.java:86-89 | at most 100 activities, each a well-named list activity of a friend |
| ActivityFeed.ListActivities | tome-backend/tome-user-data/src/main/java/com/safegergis/tome_user_data/service/ActivityFeedService.java:131-150 | an activity is listed exactly when it is made from a live public list of one of the friends |
| ActivityFeed.RecentFinished | tome-backend/tome-user-data/src/main/java/com/safegergis/tome_user_data/service/ActivityFeedService.java:94-97 | at most 100 activities, each a well-named finished-book activity of a friend |
| ActivityFeed.FinishedActivities | tome-backend/tome-user-data/src/main/java/com/safegergis/tome_user_data/service/ActivityFeedService.java:153-171 | an activity is listed exactly when it is made from a shelf entry of a friend with a finish date, stamped with that date |
| ActivityFeed.Paginate | tome-backend/tome-user-data/src/main/java/com/safegergis/tome_user_data/service/ActivityFeedService.java:231-244 | the total, as PageImpl recomputes it for a page that reaches the end, is still the whole feed's length; a page holds at most the page size, only activities of the feed, in the feed's newest-first order; a page starting past the end is empty |
| ActivityFeed.PagesCoverTheFeed | tome-backend/tome-user-data/src/main/java/com/safegergis/tome_user_data/service/ActivityFeedService.java:231-244 | item i of the feed is at position i mod size of page i div size, a page holding size items or the rest of the feed |
| ActivityFeed.PageIsTheSlice | tome-backend/tome-user-data/src/main/java/com/safegergis/tome_user_data/service/ActivityFeedService.java:231-244 | a page starting inside the feed is exactly the feed's items from page times size up to size of them or the end, as subList(start, min(start + size, n)) |
| ActivityFeed.PageSlotIsItsItem | tome-backend/tome-user-data/src/main/java/com/safegergis/tome_user_data/service/ActivityFeedService.java:231-244 | position j of page q holds item q times size plus j, and that item's page and position are q and j, so no item is on two pages |
| ActivityFeed.FarPageWrapsAround | tome-backend/tome-user-data/src/main/java/com/safegergis/tome_user_data/service/ActivityFeedService.java:234-241 | with 32-bit int arithmetic, page 85899346 of size 50 over 60 activities returns items 4 to 53, where it should be empty, and PageImpl then reports 4294967350 (the unwrapped offset plus 50) as the total instead of 60 |
| ActivityFeed.PageRequestFor | tome-backend/tome-user-data/src/main/java/com/safegergis/tome_user_data/controller/ActivityFeedController.java:55-60 | a page request exists exactly when the page is not negative and the size is at least one; sizes above 50 become 50 and others are kept |
| ActivityFeed.FriendActivityFeed | tome-backend/tome-user-data/src/main/java/com/safegergis/tome_user_data/service/ActivityFeedService.java:64-185 | the method returns the page that Feed defines: the friends' ids, the three source queries, the merged list sorted in place, then the page cut out |
| ActivityFeed.NoFriendsNoFeed | tome-backend/tome-user-data/src/main/java/com/safegergis/tome_user_data/service/ActivityFeedService.java:70-73 | a user with no live friendship gets an empty page with total 0 |
| ActivityFeed.MergedIsBounded | tome-backend/tome-user-data/src/main/java/com/safegergis/tome_user_data/service/ActivityFeedService.java:174-177 | the merged list holds at most 300 activities, each well named and by a friend |
| ActivityFeed.FeedIsNewestFirstFromFriends | tome-backend/tome-user-data/src/main/java/com/safegergis/tome_user_data/service/ActivityFeedService.java:64-185 | every page is newest first, of at most the page size, with a total of at most 300, and holds only well-named activities of users the requester has a live friendship with |
| ScraperStore.LatestResumableIn | tome-backend/scraper/hardcover_scraper.py:188-201 | nothing exactly when no run is running or stopped; otherwise a running or stopped run started no earlier than any other such run |
| ScraperStore.ResumeOffset | tome-backend/scraper/hardcover_scraper.py:656-671 | a fresh start begins at offset 0; a resumed run begins at its stored last offset, or 0 when it has none |
| ScraperStore.WithStats | tome-backend/scraper/hardcover_scraper.py:279-301 | status, times and notes stay; no counter ever goes down; the last book id and offset change only when given |
| ScraperStore.WithStatsAccumulates | tome-backend/scraper/hardcover_scraper.py:261-317 | two updates add up: each counter grows by the positive parts of both, and the later book id and offset win |
| ScraperStore.Database.constructor | tome-backend/scraper/hardcover_scraper.py:164-174 | a connection over the given rows, with no links, no errors and no current run |
| ScraperStore.Database.LastIncompleteRun | tome-backend/scraper/hardcover_scraper.py:188-201 | the resumable run: running or stopped, started last |
| ScraperStore.Database.GenreExists | tome-backend/scraper/hardcover_scraper.py:430-442 | true exactly when some genre's name matches case-insensitively |
| ScraperStore.Database.StartRun | tome-backend/scraper/hardcover_scraper.py:203-235 | a resumed run is set running and restamped in place; otherwise a fresh running row with zero counters is appended; either way it becomes the current run and no other table changes |
| ScraperStore.Database.EndRun | tome-backend/scraper/hardcover_scraper.py:237-259 | without a current run nothing changes; otherwise only that run's end time, status and notes are set |
| ScraperStore.Database.UpdateRunStats | tome-backend/scraper/hardcover_scraper.py:261-317 | without a current run nothing changes; otherwise only that run's row is updated as WithStats describes |
| ScraperStore.Database.LogError | tome-backend/scraper/hardcover_scraper.py:319-349 | exactly one error row is appended, tagged with the current run (or none), and nothing else changes |
| ScraperStore.Database.GetOrCreateAuthor | tome-backend/scraper/hardcover_scraper.py:351-395 | the author table and the returned id are those of get-or-create on the old table; nothing else changes |
| ScraperStore.Database.GetOrCreateGenre | tome-backend/scraper/hardcover_scraper.py:397-428 | the genre table and the returned id are those of get-or-create on the old table; nothing else changes |
| ScraperStore.Database.LinkAuthorsOf | tome-backend/scraper/hardcover_scraper.py:558-591 | the author table, the author links and the count are those of the contribution loop over all contributions |
| ScraperStore.Database.LinkGenresOf | tome-backend/scraper/hardcover_scraper.py:593-605 | the genre table and genre links are those of the genre loop over all names |
| ScraperStore.Database.ImportEdition | tome-backend/scraper/hardcover_scraper.py:455-621 | a rejected edition gets its rejection message, imports no authors and changes nothing; a fault during the writes is rolled back and reported; otherwise the new row, its author links and its genre links are written and success is reported; success exactly when the edition passes every check and no fault occurs |
| ScraperStore.Database.InsertEdition | tome-backend/scraper/hardcover_scraper.py:530-605 | the book row is appended, then the author and genre loops run for its id |
| ScraperStore.Database.WriteEdition | tome-backend/scraper/hardcover_scraper.py:530-621 | with a fault every write of the edition is taken back and the error message is returned; without one the inserts stand and success is reported |
| Scraper.RateLimiter.constructor | tome-backend/scraper/hardcover_scraper.py:57-59 | the delay is a minute divided by the requests-per-minute setting, and no request has been made yet |
| Scraper.RateLimiter.Wait | tome-backend/scraper/hardcover_scraper.py:61-71 | a request comes at least one delay after the previous one: the time waited until is the previous request plus the delay when that is later than now, and becomes the last request time |
| Scraper.PopularIn | tome-backend/scraper/hardcover_scraper.py:733-737 | the popular tags among the first n are at most n names |
| Scraper.KnownIn | tome-backend/scraper/hardcover_scraper.py:741-744 | the known tags among the first n are at most n names |
| Scraper.PopularInIff | tome-backend/scraper/hardcover_scraper.py:733-737 | a name is selected in the first pass exactly when some tag with that non-empty name has a count of at least 10 |
| Scraper.KnownInIff | tome-backend/scraper/hardcover_scraper.py:740-744 | a name is selected in the fallback exactly when some tag carries that non-empty name and a stored genre matches it case-insensitively |
| Scraper.PopularInOrder | tome-backend/scraper/hardcover_scraper.py:733-744 | every selected name comes from one of the tags |
| Scraper.FallbackTakesEveryKnownTag | tome-backend/scraper/hardcover_scraper.py:739-744 | when no tag reaches the threshold, every named tag that matches a stored genre is selected, not only the first |
| Scraper.FallbackTakesBoth | tome-backend/scraper/hardcover_scraper.py:739-744 | two known tags under the threshold, Fantasy and Horror, both become genres of the book |
| Scraper.DuplicatesAreQuiet | tome-backend/scraper/hardcover_scraper.py:765-771 | duplicate-ISBN rejections are never written to the error log |
| Scraper.ExistingRowIsQuiet | tome-backend/scraper/hardcover_scraper.py:765-771 | a database error whose text says "already exists" is not written to the error log |
| Scraper.PersistedOffsetPrefix | tome-backend/scraper/hardcover_scraper.py:781-792 | requests made later do not change the offset recorded after the first ones |
| Scraper.LedgerEnded | tome-backend/scraper/hardcover_scraper.py:797-812 | ending a run keeps its counters, last book id and offset, so the run's ledger still holds |
| Scraper.LedgerStep | tome-backend/scraper/hardcover_scraper.py:781-792 | one more request keeps the ledger: an empty page leaves the run row as it was; a full page adds its entry count to books processed and its outcomes' imports, authors and errors to the counters, takes their last book id if they saw one, and records the next offset |
| Scraper.LedgerKeptStep | tome-backend/scraper/hardcover_scraper.py:781-792 | a request of the page loop keeps the ledger over the outcomes of all pages handled so far, the new page's included, with the offset the request moved to |
| Scraper.TraceStep | tome-backend/scraper/hardcover_scraper.py:679-694 | a request at the offset the previous page leaves, at least one delay after the previous request, extends the run's request trace |
| Scraper.HandledCounts | tome-backend/scraper/hardcover_scraper.py:700-779 | over outcomes aligned with a page, the processed count is the entries handled less those without an id, every malformed entry counts as an error, and no entry is both added and an error |
| Scraper.TalliesAppend | tome-backend/scraper/hardcover_scraper.py:697-758 | the tallies of two stretches of outcomes add up, and the last book id after both is the later stretch's, if it saw one |
| Scraper.AlignedStep | tome-backend/scraper/hardcover_scraper.py:700-779 | the verdict on the next entry extends the outcomes aligned with the page |
| Scraper.TallyStep | tome-backend/scraper/hardcover_scraper.py:705-775 | one more outcome adds one processed entry when it read an id, one import and its authors when it added the edition, one error when it failed, and makes its id the last book id |
| Scraper.TalliedAppend | tome-backend/scraper/hardcover_scraper.py:753-775 | counters kept for two stretches of outcomes add up to counters kept for both |
| Scraper.LastSeenFrom | tome-backend/scraper/hardcover_scraper.py:677-707 | the last book id after some outcomes is the last one they read at all, and the one before them when they read none |
| Scraper.HandledPages | tome-backend/scraper/hardcover_scraper.py:679-779 | in the run's outcomes, each page's are aligned with it, and every page but the last was handled to its end |
| Scraper.HandledStep | tome-backend/scraper/hardcover_scraper.py:679-779 | the outcomes of a further page extend the run's outcomes when the page before was finished, and the run's outcomes are those before followed by the new page's |
| Scraper.OutcomesStep | tome-backend/scraper/hardcover_scraper.py:697-792 | a finished page and the next page's outcomes, with their tallies and last book id, extend the outcomes and counters kept |
| Scraper.RequestsStep | tome-backend/scraper/hardcover_scraper.py:679-811 | a request at least one delay after the latest, at the offset the previous page left, extends the request trace; the target is reached only by a full page |
| Scraper.AccountStep | tome-backend/scraper/hardcover_scraper.py:679-811 | one further request of the page loop, with its page's outcomes, counters, run row update and time, keeps the loop's whole account: outcomes, tallies, request trace and ledger |
| Scraper.AccountClosed | tome-backend/scraper/hardcover_scraper.py:679-812 | when the loop ends its account gives the handled pages, the tallies, the ledger, the request trace and the target facts the run reports |
| Scraper.HardcoverScraper.Request | tome-backend/scraper/hardcover_scraper.py:679-808 | one pass of the page loop extends the loop's account by one request, and the page is cut short only when the scraper has stopped |
| Scraper.HardcoverScraper.constructor | tome-backend/scraper/hardcover_scraper.py:627-640 | a running scraper over the given store, limiter and settings |
| Scraper.HardcoverScraper.SelectGenres | tome-backend/scraper/hardcover_scraper.py:728-744 | the names are the tags with a count of at least 10, or when there are none, every tag that names a stored genre |
| Scraper.HardcoverScraper.ProcessBook | tome-backend/scraper/hardcover_scraper.py:701-779 | a malformed entry logs one processing error and touches no table; a book without an edition and an edition already imported change nothing; otherwise the edition is added exactly when it passes every check with no fault, with its authors and selected genres linked, and a failure logs one import error unless its message is quiet |
| Scraper.HardcoverScraper.CheckRunning | tome-backend/scraper/hardcover_scraper.py:642-645 | the scraper keeps running until the signal arrives at its own check, and stays stopped afterwards |
| Scraper.HardcoverScraper.ProcessPage | tome-backend/scraper/hardcover_scraper.py:696-779 | one outcome per entry handled, in page order, each the handler's verdict on that entry (Handles); the page is cut short only when the scraper has stopped; the four counters are the tallies of those outcomes, the last book id is the last one an outcome read, and the book table grows by exactly the editions added; the run rows stay as they were; every entry handled costs one check, and a stopped scraper stays stopped |
| Scraper.HardcoverScraper.Begin | tome-backend/scraper/hardcover_scraper.py:656-671 | the latest running or stopped run is resumed from its stored offset, set running and restamped; otherwise a fresh run is started at offset 0; the catalogue is untouched |
| Scraper.HardcoverScraper.Step | tome-backend/scraper/hardcover_scraper.py:679-809 | each request waits out the limiter delay; an empty page has no outcomes, restarts at offset 0 and leaves the run row and the last book id as they were; a full page gives one outcome per entry handled, cut short only by the stop, moves one batch on and adds to the run row the page's entry count and its outcomes' tallies, with their last book id; the target counts as reached only after a full page |
| Scraper.HardcoverScraper.Run | tome-backend/scraper/hardcover_scraper.py:647-812 | the run ends completed or stopped; the returned counters are the tallies of the outcomes of every page, each page's outcomes are that page's and only the last page can be cut short; requests are one delay apart, the first at the resume offset and each later offset following from the page before; it completes only once the imports reach the target, after a full page, and stops short of it otherwise; the run row adds to the row it started from every fetched entry as processed, the outcomes' imports, authors and errors, and their last book id, and records the offset and the status and notes given at the end |
| Scraper.HardcoverScraper.Pages | tome-backend/scraper/hardcover_scraper.py:679-809 | the outcomes of each page are that page's (every page but the last handled to its end), the counters are the tallies of all of them, and the run's ledger and request trace hold; the loop finishes early only after a full page brings the imports to the target |
| Scraper.HardcoverScraper.Finish | tome-backend/scraper/hardcover_scraper.py:797-812 | the run is marked completed with the processed count when the target was reached and stopped by signal otherwise, with its counters, last book id and offset kept, so the run's ledger still holds |

## Left out

- HTTP and GraphQL (`HardcoverAPI`, `hardcover_scraper.py:74-158`): pages of popular books come from an oracle; request errors count as empty pages.
- psycopg2 plumbing: connection, cursor, SQL text, commit and rollback. The savepoint is modelled by restoring the tables the edition wrote.
- `time.sleep`, signal registration, environment and logging configuration, and `main`. The waits appear only as the limiter's clock.
- The fatal-error path of `run` (`hardcover_scraper.py:814-820`): nothing in the model raises outside the per-book handler.
- get_or_create_author and get_or_create_genre return None when their own statement fails. On PostgreSQL that failure aborts the transaction, so the edition's next statement raises. The model folds this into the edition's `fault`.
- Scraper.RateLimiter.constructor: the delay is integer milliseconds, `60000 / requests_per_minute` truncated, where the source divides in floating-point seconds.
- Scraper.PopularInOrder: states that each selected name comes from a tag, not that the selection is a subsequence of the tags. The order itself is fixed by the definition `GenreCandidates`, which `SelectGenres` is proved equal to.
- Python's `str.strip`, `str.isdigit` and `str.lower`, and Java's `toUpperCase` / `toLowerCase`, are modelled on ASCII. For `strip` that is space, tab to carriage return, and U+001C to U+001F. Whitespace above U+007F (U+0085, U+00A0, U+2028 and the rest), non-ASCII digits and non-ASCII case mappings are not modelled.
- Floating point: statistics percentages, completion and DNF rates, reading velocity, `UserBookMapper.calculateProgressPercentage`, and the average ratings of genre and author statistics.
- `StatisticsService.getTimeSeriesStatistics`: it rests on native `DATE_TRUNC` SQL and calendar month arithmetic.
- Dates are day numbers. `LocalDate.now()` and `OffsetDateTime.now()` are parameters.
- Java `int` overflow is modelled only in `paginateInMemory`, the one place it changes an answer (see Findings). Elsewhere, for example `minutesRead * 60` in reading progress, the arithmetic is unbounded.
- Bean Validation on request DTOs (`@NotNull`, `@Size`, `@Email` and the like) and Spring's HTTP error mapping (`GlobalExceptionHandler`). Errors are `Result` values.
- The book and user service clients of tome-user-data, with their circuit breakers and fallbacks, and all `@Cacheable` caching. Book and user lookups are parameters.
- `EmailService`, `JwtService`, `SecurityConfig`: mails are not modelled, and a successful login returns the account id instead of a JWT.
- Friendships.FriendshipService.Send: does not model the unique pair (requester_id, addressee_id) that tome-backend/tome-user-data/src/main/java/com/safegergis/tome_user_data/model/FriendRequest.java:30-31 declares on `friend_requests` whatever the soft delete says. The model lets a request follow an earlier rejected or cancelled request in the same direction; where the database enforces that constraint the insert is refused instead, although the service soft-deletes the rejected row "to allow new request". The schema that would say whether the constraint is created is not part of this model.
- Friendships.FriendshipService.Accept: does not model the unique pair (user_id, friend_id) that tome-backend/tome-user-data/src/main/java/com/safegergis/tome_user_data/model/Friendship.java:24-25 declares on `friendships`. The model lets a pair become friends again after removeFriend soft-deleted their friendship; where the database enforces that constraint the insert is refused instead.
- Other database unique constraints are modelled only as far as the services check them themselves.
- Where two rows tie, the order of SQL results is not modelled. The feed's merged list and the statistics ranking use stable sorts, as Java's `List.sort` is.
- `Author.java` declares a UUID id and birth dates, while `AuthorService` and its DTOs use Long ids and birth years. The model follows the service: authors have natural-number ids and years.
- Controllers other than `UserBookController.getUserBooks`, the status parse of `updateReadingStatus`, and the page-size cap of `ActivityFeedController`. They delegate to the services.
- CreateUserBookRequest.java is not part of this model. Its fields are taken from their use in `UserBookService`.
- The ordering of `getBooksInList`, lists ordered by name, the paged listing endpoints, and `getAllGenres` ordered by name. These are query orderings with no rule to state.
- Mappers and DTOs: field copying. `enrichWithUserData` in the feed: user summaries come from another service.

## Findings

| source | as written | input that shows it | evidently intended | confidence | as-written member | corrected member |
|---|---|---|---|---|---|---|
| tome-backend/tome-user-data/src/main/java/com/safegergis/tome_user_data/service/StatisticsService.java:548-559 | after each counted date the walk sets `checkDate` to the day before it and still accepts `checkDate - 1`, so a one-day gap does not end the current streak | today 100, sessions on 100, 98 and 96: a streak of 3 | the current streak is the block of consecutive days ending today or yesterday (1 here) | medium, not executed; nothing else in the model uses the corrected function | Streaks.CurrentStreakSpansGaps | Streaks.IntendedStreakIsMaximalBlock |
| tome-backend/tome-user-data/src/main/java/com/safegergis/tome_user_data/service/StatisticsService.java:574-596 | when a run breaks, the recorded start date is the first date of the next run, and the final run is dated by the list's first and last entries | dates 10, 9, 8, 5: the longest streak (3) is reported as running from 5 to 8 | the dates of the longest run itself (8 to 10) | high, not executed; nothing else in the model uses the corrected function | Streaks.ScanReportsNeighbourDates | Streaks.LongestRangeSpansRun |
| tome-backend/tome-user-data/src/main/java/com/safegergis/tome_user_data/service/FriendshipService.java:119-120 | acceptFriendRequest loads the request with `findById`, which does not skip soft-deleted rows, and then checks only the status | a request cancelled by its requester (soft-deleted, still PENDING) is accepted by the addressee, and a friendship is created | a cancelled request is gone: not found | medium, not executed | Friendships.CancelledRequestCanBeAccepted | Friendships.FriendshipService.Accept |
| tome-backend/tome-content/src/main/java/com/safegergis/tome_content/service/BookService.java:135-140 | `existsByIsbn10OrIsbn13(isbn10, isbn13)` is a derived query; with a null argument it compares with IS NULL | a request with only an ISBN-13, when a stored book with a different ISBN-13 has no ISBN-10: "already exists" | only a supplied ISBN that is already stored blocks the create | medium, not executed | Catalog.AbsentIsbnMatchesAbsentIsbn | Catalog.CatalogStore.CreateBook |
| tome-backend/tome-user-data/src/main/java/com/safegergis/tome_user_data/service/ActivityFeedService.java:231-244 | `currentPage * pageSize` and `startItem + pageSize` are 32-bit int arithmetic and wrap | page 85899346, size 50, 60 activities: items 4 to 53 instead of an empty page, with total 4294967350 | a page past the end is empty | high, not executed | ActivityFeed.FarPageWrapsAround | ActivityFeed.Paginate |
| tome-backend/tome-auth/src/main/java/com/safegergis/tome_auth/service/UserService.java:117-124 | the "already verified" check looks at the newest token whose `verifiedAt` is null and then asks whether it is verified | a user whose only token is verified: the resend deletes it and issues a new code | a verified address is refused with "Email already verified" | high, not executed | Auth.ResendRefusalCannotFire | Auth.UserService.Resend |

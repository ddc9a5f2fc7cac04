# Listening-history personalisation engine of the audiobook backend

This project models the part of the audiobook application's Express backend
that turns a user's listening history into personal figures and
recommendations:

- the updates the user routes make to the user document
  (`backend/routes/users.js`): add a favourite, remove a favourite, record
  listening progress and mark a book completed;
- the statistics report of `GET /stats` (`backend/routes/users.js`):
  - total, last-week and last-month listening time;
  - the genre, author and narrator tallies and their top entries;
  - the listening streak and the favourite listening hour;
  - the two percentiles against all users;
  - the milestone ladder and the next milestone with its progress;
  - the longest-listened and most re-listened books;
- the recommendation engine of `GET /recommendations`
  (`backend/routes/audiobooks.js`):
  - preference weights normalised by the total listening time;
  - the top three genres, five authors and three narrators;
  - the candidate query and the weighted score;
  - the stable ranking to ten books;
  - collaborative filtering through similar users;
- the `editDistance` and `similarity` helpers of `backend/routes/audiobooks.js`.

The Mongo store is taken as input:

- The catalogue and the user collection are sequences in store order.
- `find(...).limit(n)` is a filter followed by a prefix (`Query.Filter`, `Query.Limit`).
- `populate` looks a reference up in the catalogue (`Records.Populate`, `Records.PopulateIds`).

JavaScript behaviour that the results depend on is written out:

- `Array.prototype.sort` is stable. It is modelled as insertion into a
  descending list (`Sorting.Sort`), and implemented in place on an array
  (`Sorting.SortInPlace`).
- A plain object keeps its keys that are not integer-like in insertion order (facet names are taken to be such keys; see "## Left out"). `Tally.Tally` is a key
  list next to a map.
- `(d[k] || 0) + x` is `Tally.Add`.
- Object keys that look like integers (the hours of the day) are listed in
  ascending order (`Analytics.HourEntries`).

The files:

- `history.dfy`: the user document. Its methods change the document in
  place and are proved against functions on the old lists.
- `facets.dfy`: the accumulation loops. They are proved against recursive
  definitions of the time spent per genre, author and narrator.
- `similarity.dfy`: `editDistance`. Its one-row dynamic program is proved
  against the recursive Levenshtein distance.
- `streak.dfy` and `percentile.dfy`: `calculateStreak` and
  `calculatePercentile`. Both sort their argument in place, as the source does.

Where the code's behaviour is surprising, the model follows the code:

- A history entry whose book no longer exists makes both routes answer 400.
  `populate` leaves `null` in the history entry, and destructuring it throws;
  the entry is not skipped. The model has `Records.Populate` fail with
  `DanglingReference`.
  - Dangling ids in `favoriteAudiobooks` and `completedBooks` are dropped by
    `populate` and are only counted when they exist (`Records.PopulateIds`).
  - So `completedBooksCount` is the number of completed books that still exist
    (`Stats.StatsFigures`, through `Records.ExistingIds`).
- An empty listening history makes `GET /stats` answer 400. It indexes
  `[0][0]` of an empty entry list when it picks the favourite hour, so no
  zero-valued report is produced. The model answers `Failure(EmptyHistory)`.
- `calculatePercentile` of an empty array is `-1 / 0 * 100`, which is
  `-Infinity` (`Percentiles.MinusInfinity`), not `NaN`.
  - A value above every element gives `-100 / length`.
- `mostRelistenedBook` counts repeated history entries for one book. The
  history route upserts, so through that route each book has one entry and
  every count is 1 (`History.UpsertedBooks` keeps the books distinct).
- The recommendation route reads `user.milestones`, which the user schema
  does not have. See "## Findings".

## Model

| member | source | states |
|---|---|---|
| Records.HourOf | backend/routes/users.js:168 | The hour of a timestamp is between 0 and 23. |
| Records.Lookup | backend/routes/users.js:114-117 | `findById`/`populate` finds a book exactly when the catalogue holds one with the id, and returns a catalogue book with that id. |
| Records.Populate | backend/routes/users.js:114-117 | The populated history exists exactly when every entry's book is in the catalogue. It then has the same length, with each entry's book looked up and its time and progress kept. |
| Records.PopulateIds | backend/routes/users.js:117 | Populating an id list gives, in list order, the book of each id whose book exists and nothing else: its length is the number of such ids, its `k`-th book is the book of the `k`-th such id, and it is as long as the list when every id exists. |
| Query.Filter | backend/routes/audiobooks.js:271-278 | A query returns every matching document and no others. |
| Query.FilterAppend | backend/routes/audiobooks.js:271-278 | The query result of a concatenated collection is the result of the first part followed by that of the second, so results keep store order and multiplicity. |
| Query.FilterAt | backend/routes/audiobooks.js:271-278 | A matching document is the result at the index given by the number of matching documents before it. |
| Query.FilterOrigin | backend/routes/audiobooks.js:271-278 | The result at index `k` is the matching document with exactly `k` matching documents before it. |
| Query.LimitFilterAt | backend/routes/audiobooks.js:271-278 | After `limit(n)`, a matching document with fewer than `n` matches before it is still the result at that index. |
| Query.LimitFilterOrigin | backend/routes/audiobooks.js:271-278 | After `limit(n)`, the result at index `k` is the matching document with `k` matches before it. |
| Query.Limit | backend/routes/audiobooks.js:278 | `limit(n)` returns the first `min(n, length)` documents, as a prefix. |
| Query.FilterNone | backend/routes/audiobooks.js:271-278 | A query that nothing matches returns nothing. |
| Sorting.Sort | backend/routes/audiobooks.js:256 | The comparator `b - a` sort returns a permutation of its input in non-increasing key order. |
| Sorting.InsertPermutes | backend/routes/audiobooks.js:318 | One insertion step adds exactly the inserted element. |
| Sorting.InsertKeepsOrder | backend/routes/audiobooks.js:318 | One insertion step keeps a descending list descending. |
| Sorting.SortIsStable | backend/routes/audiobooks.js:256 | Elements with equal keys come out in their input order (a stable sort). |
| Sorting.TiesInsert | backend/routes/audiobooks.js:318 | An inserted element goes behind every element with the same key. |
| Sorting.SortHeadIsMax | backend/routes/users.js:173-174 | The first element after sorting is an input element with the largest key. |
| Sorting.SortHead | backend/routes/users.js:173-174 | The first element after sorting is the first input element with the largest key. |
| Sorting.SortOfEqualKeys | backend/routes/audiobooks.js:255-258 | Sorting elements with equal keys changes nothing. |
| Sorting.SortTopDominates | backend/routes/audiobooks.js:318-319 | Every element cut off by `slice(0, m)` has a key at most that of every kept element. |
| Sorting.SortTopTies | backend/routes/audiobooks.js:318-319 | The kept elements with a given key are a prefix of the input's elements with that key, in input order. |
| Sorting.SortSnoc | backend/routes/audiobooks.js:318 | Sorting a list with one more element is inserting it into the sorted list. |
| Sorting.InsertAt | backend/routes/audiobooks.js:318 | Insertion puts the element before the first strictly smaller key. |
| Sorting.SortInPlace | backend/routes/audiobooks.js:318 | The in-place sort leaves the array holding exactly the sorted old contents. |
| Sorting.InsertNext | backend/routes/audiobooks.js:318 | One step of the in-place sort inserts `a[i]` into the sorted prefix and leaves the rest of the array unchanged. |
| Tally.Empty | backend/routes/audiobooks.js:226-228 | `{}` has no keys. |
| Tally.Add | backend/routes/audiobooks.js:236 | Adding `x` to a key, counting a missing key as 0, changes that key only. A new key goes to the end of the key order; an old key keeps the order. |
| Tally.FromPairs | backend/routes/audiobooks.js:231-241 | A sequence of `Add`s gives a well-formed object: distinct keys that are exactly the map's keys. |
| Tally.FromPairsSnoc | backend/routes/audiobooks.js:231-241 | Accumulating one more pair is one more `Add`. |
| Tally.FromPairsMeaning | backend/routes/audiobooks.js:231-241 | Each key's value is the sum of the amounts given for it, and the keys are exactly the names that occur. |
| Tally.FromPairsNonNegative | backend/routes/audiobooks.js:231-241 | Non-negative amounts give non-negative values. |
| Tally.AddSum | backend/routes/audiobooks.js:236 | Adding `x` raises the sum of all values by `x`. |
| Tally.FromPairsSum | backend/routes/audiobooks.js:229-241 | The values sum to the sum of all amounts. |
| Tally.Scaled | backend/routes/audiobooks.js:244-252 | Dividing every value by `d` keeps the keys and their order, and divides each value. |
| Tally.ScaledSumsToOne | backend/routes/audiobooks.js:243-252 | Values divided by their own sum add up to 1. |
| Tally.ScaledNonNegative | backend/routes/audiobooks.js:243-252 | Dividing by a positive total keeps values non-negative. |
| Tally.ScaledKeepsOrder | backend/routes/audiobooks.js:243-256 | Dividing by a positive total does not change which of two keys weighs more. |
| Tally.SortedEntriesAreEntries | backend/routes/users.js:151-152 | Sorted entries are still key/value pairs of the object. |
| Tally.TopKeysDistinct | backend/routes/audiobooks.js:255-258 | The top keys are distinct. |
| Tally.TopKeysOutweigh | backend/routes/users.js:151-159 | A key left out of the top `n` weighs no more than any entry kept. |
| Tally.TopEntriesAreTop | backend/routes/users.js:151-159 | The top `n` entries are `min(n, keys)` real entries with distinct keys, in non-increasing value order, and outweigh every key left out. |
| Tally.TopOf | backend/routes/users.js:151-159 | The sort-and-slice on an array returns exactly the top entries. |
| Tally.TopKeysByGet | backend/routes/audiobooks.js:255-263 | The top keys are `min(n, keys)` distinct keys of the object, each weighing at least as much as any key left out. |
| Tally.ScaledTopKeys | backend/routes/audiobooks.js:243-268 | After normalisation the top keys are still the heaviest keys by raw listening time. |
| Tally.TopKeysOfEqualValues | backend/routes/audiobooks.js:255-268 | When all values are equal, the top keys are the first keys in insertion order. |
| Facets.FanSumFor | backend/routes/audiobooks.js:237-239 | An author listed `k` times on a book is credited `k` times its progress. |
| Facets.GenreTallyMeaning | backend/routes/audiobooks.js:229-241 | Each genre's value is the time spent on books of that genre, and the values sum to the total listening time. |
| Facets.NarratorTallyMeaning | backend/routes/audiobooks.js:229-241 | Each narrator's value is the time spent on books they read, and the values sum to the total listening time. |
| Facets.AuthorTallyMeaning | backend/routes/audiobooks.js:237-239 | Each author's value is the full progress of every listen that lists them, once per listing. |
| Facets.GenreKeys | backend/routes/users.js:141-149 | The genre keys are exactly the genres that occur in the history. |
| Facets.NarratorKeys | backend/routes/users.js:234-245 | The narrator keys are exactly the narrators that occur in the history. |
| Facets.AuthorKeys | backend/routes/users.js:141-149 | The author keys are exactly the authors that occur in the history. |
| Facets.TalliesNonNegative | backend/routes/audiobooks.js:229-241 | Every tally value is non-negative. |
| Facets.EmptyHistoryNoKeys | backend/routes/audiobooks.js:243-252 | An empty history has no keys, so the normalising loops divide nothing. |
| Facets.PreferencesSnoc | backend/routes/audiobooks.js:231-241 | One `forEach` step adds the listen's progress to its genre, narrator, each author and the total. |
| Facets.AccumulatePreferences | backend/routes/audiobooks.js:226-241 | The loop computes the genre, author and narrator tallies and the total listening time of the whole history. |
| Facets.CreditAuthors | backend/routes/audiobooks.js:237-239 | The inner `authors.forEach` credits every listed author with the progress. |
| Facets.Normalise | backend/routes/audiobooks.js:244-252 | The in-place division loop gives each key its value divided by the total, keys unchanged. |
| Facets.NormalisedWeightsSumToOne | backend/routes/audiobooks.js:243-252 | With a positive total, genre weights and narrator weights each sum to 1. |
| Facets.TimesVanish | backend/routes/audiobooks.js:229-241 | When every progress is 0, every genre, author and narrator has time 0. |
| Facets.ZeroTotal | backend/routes/audiobooks.js:229-234 | The total is 0 exactly when every progress is 0. |
| History.WithAdded | backend/routes/users.js:59-62 | Add-if-absent adds the id once, at the end, only when absent, and keeps a duplicate-free list duplicate-free. |
| History.AddIdempotent | backend/routes/users.js:59-62 | Adding the same id twice is adding it once. |
| History.Without | backend/routes/users.js:76 | The filter removes every occurrence of the id and keeps the count of every other id. |
| History.WithoutAppend | backend/routes/users.js:76 | The filter works piecewise, so the order of the other ids is kept. |
| History.WithoutAbsent | backend/routes/users.js:76 | Removing an id that is absent changes nothing. |
| History.RemoveIdempotent | backend/routes/users.js:76 | Removing the same id twice is removing it once. |
| History.FirstIndex | backend/routes/users.js:91 | `find` returns the first entry for the book, or none when no entry has it. |
| History.UpsertedMeaning | backend/routes/users.js:91-102 | An existing entry gets the new time and progress; only the first such entry changes, and the length stays. Otherwise exactly one entry is appended. |
| History.UpsertedBooks | backend/routes/users.js:91-102 | Recording progress adds the book to the history's books as add-if-absent, so the history never holds two entries for one book. |
| History.UserDocument.AddFavorite | backend/routes/users.js:54-68 | Favourites become the add-if-absent of the id; history and completed books are unchanged. |
| History.UserDocument.RemoveFavorite | backend/routes/users.js:71-83 | Favourites lose every occurrence of the id; history and completed books are unchanged. |
| History.UserDocument.UpdateHistory | backend/routes/users.js:86-109 | The history becomes the upsert of the entry; favourites and completed books are unchanged. |
| History.UserDocument.CompleteBook | backend/routes/users.js:296-310 | Completed books become the add-if-absent of the id; favourites and history are unchanged. |
| Streaks.ConsecutiveMeans | backend/routes/users.js:326-330 | Two dates are consecutive exactly when they are apart by more than 0 and at most one day. |
| Streaks.ConsecutiveDays | backend/routes/users.js:326-330 | Two calendar days are consecutive exactly when they differ by one. |
| Streaks.Streak | backend/routes/users.js:313-324 | The streak is the length of the leading run of consecutive days: 0 only for no days, and the run stops at the first gap. |
| Streaks.StreakUnique | backend/routes/users.js:313-324 | Those properties determine the streak. |
| Streaks.StreakIsRunFromLatest | backend/routes/users.js:313-324 | On distinct days sorted latest first, the streak counts back one day at a time from the latest day. |
| Streaks.CalculateStreak | backend/routes/users.js:313-324 | The method sorts the array latest first in place and returns the streak of the sorted days. |
| Percentiles.CountBelow | backend/routes/users.js:335 | The count of elements strictly below the value equals the length exactly when every element is below it. |
| Percentiles.CountBelowPermutation | backend/routes/users.js:334 | Sorting does not change how many elements are below the value. |
| Percentiles.FirstAtLeast | backend/routes/users.js:334-335 | In the ascending array, the first index holding a value at least `v` is the count of elements below `v`. |
| Percentiles.ShareBounds | backend/routes/users.js:336 | `index / length * 100` lies in [0, 100) for an index below the length. |
| Percentiles.ShareMonotone | backend/routes/users.js:336 | A larger index gives a larger share. |
| Percentiles.PercentileIsShare | backend/routes/users.js:333-337 | When some element is at least the value, the percentile is the share of elements strictly below it. |
| Percentiles.PercentileInRange | backend/routes/users.js:333-337 | Such a percentile lies in [0, 100). |
| Percentiles.PercentileMonotone | backend/routes/users.js:333-337 | Among the array's own values, a larger value never has a smaller percentile. |
| Percentiles.PercentileFromIndex | backend/routes/users.js:333-337 | The result computed from `findIndex` is the percentile: `-Infinity` for an empty array, `-100 / length` when nothing is large enough. |
| Percentiles.FindIndex | backend/routes/users.js:335 | `findIndex` returns the first index holding a value at least `v`, or -1 when there is none. |
| Percentiles.CalculatePercentile | backend/routes/users.js:333-337 | The method sorts the array ascending in place and returns the percentile of the old contents. |
| Milestones.FirstUnachieved | backend/routes/users.js:211 | `find(m => !m.achieved)` returns the first unachieved milestone, or none when all are achieved. |
| Milestones.BookTargets | backend/routes/users.js:217 | `parseInt` reads 5 and 10 from the book milestone names. |
| Milestones.HourTargets | backend/routes/users.js:221 | `parseInt` reads 24 and 100 from the hour milestone names. |
| Milestones.Targets | backend/routes/users.js:217-221 | The four numeric targets read from the names. |
| Milestones.LadderNested | backend/routes/users.js:200-208 | There are seven milestones, and the book and hour thresholds are nested. |
| Milestones.BookProgress | backend/routes/users.js:215-218 | Book milestone progress is completed / 5 or / 10, times 100. |
| Milestones.DayProgress | backend/routes/users.js:219-223 | The 24-hour milestone's progress is seconds over 86400, times 100. |
| Milestones.HundredHoursProgress | backend/routes/users.js:219-223 | The 100-hour milestone's progress is seconds over 360000, times 100. |
| Milestones.ExploredProgress | backend/routes/users.js:224-229 | Genre and author milestone progress is keys / 5 or / 10, times 100. |
| Milestones.FirstBookProgress | backend/routes/users.js:212-231 | "First Book Completed" has no case in the switch, so its progress stays `null`. |
| Milestones.ProgressByName | backend/routes/users.js:212-231 | The progress formula of each of the seven milestone names. |
| Milestones.LadderProgress | backend/routes/users.js:200-231 | The progress formula of each rung of the ladder. |
| Milestones.UnachievedProgress | backend/routes/users.js:200-231 | An unachieved milestone other than the first has a progress in [0, 100). |
| Milestones.NextMilestoneProgress | backend/routes/users.js:200-231 | No next milestone means every threshold is met. The next one is the first only when nothing is completed; its progress is `null` exactly then, and otherwise in [0, 100). |
| Analytics.InWindowMeans | backend/routes/users.js:127 | An entry is in an `n`-day window exactly when `now - t <= n` days; both bounds are inclusive and future times count. |
| Analytics.WindowNested | backend/routes/users.js:122-138 | Last week's time is at most last month's, which is at most the total. |
| Analytics.WindowWhole | backend/routes/users.js:122-138 | When every entry is in the window, the window's time is the total. |
| Analytics.ListeningDays | backend/routes/users.js:162-164 | The set of listening days holds each day with a listen once, and no other day. |
| Analytics.HourEntries | backend/routes/users.js:167-173 | `Object.entries(listeningHours)` lists each hour with a listen once, in ascending order, with its listening time. |
| Analytics.HeadOfAscending | backend/routes/users.js:173-174 | The first entry after the sort has the largest time and, among equal times, the smallest hour. |
| Analytics.FavoriteHourMeaning | backend/routes/users.js:167-174 | There is a favourite hour exactly when the history is non-empty. It is an hour with a listen and the most listening time, the earliest such hour on a tie. |
| Analytics.ReduceMax | backend/routes/users.js:195-197 | The strict-`>` reduce from 0 picks the first largest positive value, or nothing when no value is positive. |
| Analytics.LongestListenedMeaning | backend/routes/users.js:195-197 | The longest-listened book is `null` exactly when every progress is 0; otherwise it is the first listen with the largest progress. |
| Analytics.OccurrencesOfMember | backend/routes/users.js:260 | Every listened book occurs at least once. |
| Analytics.MostRelistenedMeaning | backend/routes/users.js:259-262 | A non-empty history always has a most re-listened book: the first listen whose book has the most entries. |
| Analytics.TopNarratorsRows | backend/routes/users.js:234-254 | There are `min(5, narrators)` rows; each holds a heard narrator, their total time and their number of distinct books. |
| Analytics.RowsOfEntries | backend/routes/users.js:247-252 | A row built from a narrator entry holds that narrator's time and book count. |
| Analytics.TopNarratorEntries | backend/routes/users.js:247-254 | The top narrator entries are distinct and descending, and outweigh every other narrator. |
| Analytics.OrderOfEntries | backend/routes/users.js:247-254 | Rows built from such entries are distinct, descending by time, and outweigh every narrator left out. |
| Analytics.TopNarratorsOrder | backend/routes/users.js:247-254 | The narrator rows have distinct narrators in non-increasing time, and no narrator left out has more time than a row. |
| Analytics.FirstRowIsMax | backend/routes/users.js:256 | The first of the top entries has the largest value of all keys. |
| Analytics.TopEntryIsMax | backend/routes/users.js:256 | The first top entry of an object has its largest value. |
| Analytics.NarratorHeard | backend/routes/users.js:234-245 | Every listen's narrator is a key, with their total time. |
| Analytics.NarratorKeysEmpty | backend/routes/users.js:234-245 | There are no narrator keys exactly when the history is empty. |
| Analytics.FavoriteNarratorMeaning | backend/routes/users.js:256 | There is a favourite narrator exactly when the history is non-empty, and no narrator has more listening time. |
| Stats.Stats | backend/routes/users.js:112-293 | The handler computes exactly the report of the functional model, or its error. |
| Stats.PopulatedTotal | backend/routes/users.js:122 | The populated history has the same listening total as the stored one. |
| Stats.StatsOutcome | backend/routes/users.js:112-293 | The route answers exactly when the history is non-empty and every history book exists. An empty history answers 400. |
| Stats.StatsReport | backend/routes/users.js:264-289 | Each field of a successful report is its figure computed over the populated history. |
| Stats.StatsFigures | backend/routes/users.js:122-262 | In a report, week ≤ month ≤ total. The total is the stored total, the completed count is the number of completed ids whose book exists (at most the list), the streak is between 1 and the number of listens, and the hour is in 0..23. A favourite narrator and a most re-listened book exist, and milestone progress is in [0, 100). |
| Stats.SortedDays | backend/routes/users.js:162-165 | Sorting distinct listening days keeps them distinct and puts the latest first. |
| Stats.LatestRun | backend/routes/users.js:162-165 | The streak is a run of consecutive listening days ending at the latest listening day. |
| Stats.StreakField | backend/routes/users.js:165 | The report's streak is the streak of the sorted listening days. |
| Stats.StatsStreak | backend/routes/users.js:162-165 | The report's streak counts back one day at a time from the latest listening day, each day a listening day. |
| Stats.StatsPercentiles | backend/routes/users.js:177-184 | When the user is among all users, both percentiles are finite and in [0, 100). |
| Recommend.PreferencesOf | backend/routes/audiobooks.js:226-252 | The normalised preference objects are well formed. |
| Recommend.PeerBooks | backend/routes/audiobooks.js:336 | The peers' books are exactly their favourites and completed books. |
| Recommend.RankTop | backend/routes/audiobooks.js:318-319 | The in-place sort and slice return the ranking. |
| Recommend.FirstBooks | backend/routes/audiobooks.js:319 | The first `n` books of the array. |
| Recommend.Recommend | backend/routes/audiobooks.js:218-348 | The handler, with the next milestone taken from a milestone list, computes exactly the functional answer. |
| Recommend.CandidatesMeaning | backend/routes/audiobooks.js:271-278 | Candidates are at most 50 catalogue books that match a top facet and are not completed. When there are fewer than 50, every such book is one. |
| Recommend.CandidateAt | backend/routes/audiobooks.js:271-278 | A matching, uncompleted catalogue book with fewer than 50 matches before it in store order is the candidate at that index. |
| Recommend.CandidateOrigin | backend/routes/audiobooks.js:271-278 | The candidate at index `k` is the matching book with exactly `k` matches before it, so the candidates are the first 50 matches in store order. |
| Recommend.ListedIdsCover | backend/routes/audiobooks.js:277 | A completed book that exists is excluded. |
| Recommend.RankedAreCandidates | backend/routes/audiobooks.js:318-319 | Ranked books are candidates. |
| Recommend.PersonalizedIs | backend/routes/audiobooks.js:271-319 | The personal list is the ranking of the scored candidates. |
| Recommend.PersonalizedAreNew | backend/routes/audiobooks.js:271-319 | Every personal recommendation is a catalogue book, not completed, that matches a top facet. |
| Recommend.NoHistoryNoPersonalized | backend/routes/audiobooks.js:226-319 | An empty history gives no personal recommendations. |
| Recommend.GenreTops | backend/routes/audiobooks.js:255-258 | The top genres are `min(3, genres)` heard genres, and each has at least the time of every genre left out. |
| Recommend.AuthorTops | backend/routes/audiobooks.js:260-263 | The top authors are `min(5, authors)` heard authors, and each has at least the time of every author left out. |
| Recommend.NarratorTops | backend/routes/audiobooks.js:265-268 | The top narrators are `min(3, narrators)` heard narrators, and each has at least the time of every narrator left out. |
| Recommend.TopsMeaning | backend/routes/audiobooks.js:254-268 | The three top lists together: sizes 3/5/3 at most, drawn from the history, and heavier than what they leave out. |
| Recommend.ZeroTallies | backend/routes/audiobooks.js:243-252 | With total 0 every tally value is 0. |
| Recommend.ZeroTimeTops | backend/routes/audiobooks.js:255-268 | With total 0 the top lists are the first keys in insertion order. |
| Recommend.RankUndetermined | backend/routes/audiobooks.js:318-319 | With undetermined scores the ranking is the first ten candidates. |
| Recommend.ZeroTimeKeepsOrder | backend/routes/audiobooks.js:243-319 | A history of zero progress recommends the first ten candidates in store order. |
| Recommend.RankMeaning | backend/routes/audiobooks.js:317-319 | The top ten are `min(10, candidates)` scored candidates, in non-increasing score order, with ties in candidate order, none outscored by a candidate left out. |
| Recommend.AuthorScoreNonNegative | backend/routes/audiobooks.js:286-290 | The author part of the score is non-negative. |
| Recommend.PreferencesNonNegative | backend/routes/audiobooks.js:226-252 | All preference weights are non-negative. |
| Recommend.ScoreOfNonNegative | backend/routes/audiobooks.js:281-315 | Non-negative weights give a non-negative score. |
| Recommend.ScoreNonNegative | backend/routes/audiobooks.js:281-315 | Every score is non-negative. |
| Recommend.NewGenre | backend/routes/audiobooks.js:301 | A genre is not a preference key exactly when no listen has it. |
| Recommend.NewAuthor | backend/routes/audiobooks.js:307 | Some author of a book is not a preference key exactly when some author of it is in no listen. |
| Recommend.ExplorationBonusMeaning | backend/routes/audiobooks.js:295-312 | The bonus is 0 or 0.5. It is 0.5 exactly when a genre milestone is next and the genre is new, or an author milestone is next and some author is new. |
| Recommend.PeersMeaning | backend/routes/audiobooks.js:322-332 | At most 10 peers, none the user, each sharing a favourite with the favourites or a completed book with the completed books. When there are fewer than 10, every such user is one. |
| Recommend.PeerAt | backend/routes/audiobooks.js:322-332 | A matching user with fewer than 10 matches before them in store order is the peer at that index. |
| Recommend.PeerOrigin | backend/routes/audiobooks.js:322-332 | The peer at index `k` is the matching user with exactly `k` matches before them. |
| Recommend.CollaborativeMeaning | backend/routes/audiobooks.js:334-339 | At most 5 results, each a catalogue book among the peers' books and not among the user's. When there are fewer than 5, every such book is one. |
| Recommend.CollaborativeAt | backend/routes/audiobooks.js:334-339 | A matching catalogue book with fewer than 5 matches before it in store order is the result at that index. |
| Recommend.CollaborativeOrigin | backend/routes/audiobooks.js:334-339 | The result at index `k` is the matching book with exactly `k` matches before it. |
| Recommend.CollaborativeIs | backend/routes/audiobooks.js:321-339 | The collaborative list is computed from the peers' books, excluding the user's favourites and completed books. |
| Recommend.CollaborativeAreNew | backend/routes/audiobooks.js:321-339 | Every collaborative recommendation is a catalogue book in some peer's lists and in neither of the user's. |
| Recommend.RecommendSucceeds | backend/routes/audiobooks.js:218-348 | The route answers exactly when every history book exists. |
| Recommend.AsWrittenFailsWithCandidates | backend/routes/audiobooks.js:296 | As written, the route fails whenever there is a candidate, and otherwise answers like the corrected route. |
| Recommend.SingleListenTopGenre | backend/routes/audiobooks.js:255-258 | A single listen with progress makes its genre the only top genre. |
| Recommend.SameGenreIsCandidate | backend/routes/audiobooks.js:271-278 | Another uncompleted book of that genre is then a candidate. |
| Recommend.AsWrittenCounterexample | backend/routes/audiobooks.js:296 | A user with one listen and a second book of the same genre gets a 400 as written and an answer from the corrected route. |
| Similarity.DistStep | backend/routes/audiobooks.js:377-382 | One cell of the distance table follows from its three neighbours. |
| Similarity.EditDistance | backend/routes/audiobooks.js:365-390 | `editDistance` returns the Levenshtein distance of the lower-cased strings. |
| Similarity.NextRow | backend/routes/audiobooks.js:371-387 | One pass of the outer loop turns the row `i - 1` held in `costs` into row `i`. |
| Similarity.DistanceToEmpty | backend/routes/audiobooks.js:365-390 | The distance to or from the empty string is the length. |
| Similarity.DistanceSelf | backend/routes/audiobooks.js:365-390 | A string is at distance 0 from itself. |
| Similarity.DistanceSymmetric | backend/routes/audiobooks.js:365-390 | The distance is symmetric. |
| Similarity.DistanceBounds | backend/routes/audiobooks.js:365-390 | The distance is at least the difference of the lengths and at most the longer length. |
| Similarity.DistanceZero | backend/routes/audiobooks.js:365-390 | The distance is 0 exactly when the lower-cased strings are equal. |
| Similarity.ShareOfLength | backend/routes/audiobooks.js:362 | `(L - e) / L` is in [0, 1], and is 1 exactly when `e` is 0. |
| Similarity.SimilarityMeaning | backend/routes/audiobooks.js:351-363 | The similarity is in [0, 1], and is 1 exactly when the lower-cased strings are equal, including two empty strings. |
| Similarity.SimilaritySymmetric | backend/routes/audiobooks.js:351-363 | The similarity is symmetric. |
| Similarity.ComputeSimilarity | backend/routes/audiobooks.js:351-363 | The helper returns the similarity, with the distance from the one-row loop. |

## Left out

- Authentication, the HTTP layer, `save()` and the other routes: they are transport, persistence and auth glue around the modelled logic.
- The catalogue listing, search and admin routes: they build Mongo queries or read the file system and have no local algorithm.
- `inProgressBooks` of `GET /stats`: it divides seconds by a duration in minutes, a percentage with no stated meaning. `Stats.Report` has no such field.
- Time zones: days and hours are taken in UTC. The source takes the day from `toISOString` (UTC) but the hour from `getHours` (the server's local zone).
- Floating point: weights, scores and shares are exact reals and progress is whole seconds, so rounding is not modelled.
- NaN from dividing by a zero total: with all progress 0 the source divides 0 by 0. The model keeps the weights at 0. The comparator then returns NaN, which V8 reads as "keep the order", so the ranking is `Recommend.Rank` with `undetermined` set.
- Similarity.EditDistance, Similarity.ComputeSimilarity: lengths and indexing are per Unicode code point, while the source's `.length` and `charAt` count UTF-16 code units. Strings with characters outside the Basic Multilingual Plane (an emoji is two code units) therefore get different distances and scores; for example, two different single emoji are at distance 1 with similarity 0.5 in the source and 0 in the model.
- `toLowerCase` beyond ASCII: `Similarity.Lower` lower-cases the letters A to Z only.
- Tally.Tally: the key list is kept in insertion order for every key. JavaScript lists integer-like keys (a genre, author or narrator named "1984") first, in ascending numeric order, so with such names and equal weights the tops and top entries (Tally.TopKeys, Tally.TopEntries, Recommend.ZeroTimeTops) may keep different keys than the source.
  - Every name also starts from 0. On a plain object, `(d[k] || 0)` reads an inherited `Object.prototype` member for a name such as `constructor` or `toString`, so the source's tally for that name becomes a string and its weight NaN. A name `__proto__` is never stored as a key. The model counts these names like any other, so the same members, and Tally.Add and Tally.FromPairs, differ from the source for them.
- Records.HistoryEntry: progress is a `nat`. The route stores `req.body.progress` unchecked, so the source admits negative values. Analytics.WindowNested, Facets.TalliesNonNegative, Recommend.ScoreNonNegative and the "`null` exactly when every progress is 0" half of Analytics.LongestListenedMeaning rely on progress ≥ 0.
- Similarity.NextRow: the inner-loop pass with `j == 0` does nothing for `i > 0`, so it is omitted.
- Mongo ids are natural numbers and `toString`/`equals` on them are integer equality.
- Sorting.InsertNext, Sorting.SortInPlace: V8 uses TimSort; the model sorts by insertion, which gives the same result because both are stable.
- Recommend.Recommend: takes the milestone list as a parameter, the correction described under Findings.

## Findings

| source | as written | input that shows it | evidently intended | confidence | as-written member | corrected member |
|---|---|---|---|---|---|---|
| backend/routes/audiobooks.js:296 | The scoring callback calls `user.milestones.find(...)`, but the user schema (backend/models/user.model.js:6-44) has no `milestones` field. The first scored candidate throws, and the route answers 400. | A user with one listen of a Science Fiction book, and a second Science Fiction book in the catalogue: that book is a candidate, so the route fails. | The next milestone comes from the milestone ladder the statistics route builds. The route answers whenever every history book exists. | not executed | Recommend.AsWrittenCounterexample | Recommend.RecommendSucceeds |

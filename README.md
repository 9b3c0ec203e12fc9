# Truth Social monitor: the novelty detector, modelled in Dafny

The program watches the Truth Social timeline of @realDonaldTrump. It comes in
two variants that share their novelty logic:

- `TruthSocialMonitor` (monitor.py) scrapes the page once at start-up and then
  every hour at one minute past, and emails the posts it has not seen before.
- crawler.py is a one-shot scraper.

This project models the part of both variants that decides which scraped posts
are new, and proves what that logic guarantees.

- **`Text`** holds the Python string primitives the detector relies on:
  `str.lower()`, `re.findall(r'\w+', ...)`, `str.split()`, `" ".join(...)`,
  `str.split(" ")`, `str.strip()`, `sub in s` and `str(n)`.
- **`Jaccard`** holds the token-set Jaccard score shared by both variants. A
  score is the exact fraction |A ∩ B| / |A ∪ B|, or 0 when either token set is
  empty. "score >= threshold" is decided by cross-multiplication, and the
  default threshold is 7/10.
- **`Dedup`** holds the first-fit batch deduplicator
  (`_remove_duplicates_using_jaccard` / `remove_duplicates_using_jaccard`). The
  two copies in the program differ only in the similarity test they call, so
  the deduplicator is written once, over a similarity relation. Each variant
  instantiates it with its own test.
- **`Monitor`** holds the monitor's trimmed similarity test. `_clean_content`
  drops the last three " "-separated fields of both sides before scoring. The
  module also holds the per-cycle classifier of `check_and_notify`:
  - class `TruthSocialMonitor` keeps the `seen_posts` map as a field;
  - `CheckAndNotify` is its loop, proved equal to the ghost specification
    `Cycle`.
- **`Crawler`** holds the crawler's untrimmed similarity test and its
  deduplicator. It also holds `extract_posts_from_page`: the choice of selector,
  the per-element acceptance rules, whitespace collapsing, and the building of
  posts.
- **`TrimExample`** works one case through both similarity tests: the same
  status scraped twice, with only its time and repost count changed. It shows
  that the monitor's trimmed test and the crawler's untrimmed test give
  different answers, so the two variants cannot share one test.
- **`Seqs`**, **`Wrappers`** and **`Posts`** hold the in-order subsequence
  relation, the `Option` type and the post record.

A page is represented by what each CSS selector matches on it. An element is
represented by its visible text and by the `time` / `[datetime]` children it
may have.

Proof layout:

- Each loop that builds a result or updates state is a method proved equal to
  a specification function over the inputs. These are the deduplicator, the
  classification loop of `check_and_notify`, the selector loop and the element
  loop.
- The early-exit scans of `_is_similar_content` and `is_similar_content`
  (monitor.py:89-94, crawler.py:45-49) return as soon as one entry is similar.
  They are modelled by the recursive function `Dedup.AnySimilar`, whose
  contract is the "some entry is similar" that they compute.
- The properties the program relies on are lemmas about those functions:
  - order-preserving output;
  - no two kept posts similar;
  - first occurrence wins;
  - idempotence;
  - the store only grows;
  - decisions are final;
  - the snapshot is taken once per cycle;
  - the selector choice;
  - the acceptance rules.

## Model

| member | source | states |
|---|---|---|
| Text.IsSpace | crawler.py:166 | `str.isspace()`, with Python's full whitespace set, the separator of `split()` and what `strip()` drops. It has no contract of its own; Fields, StripLeft, StripRight and Strip state what it decides |
| Text.IsWordChar | monitor.py:67 | the `\w` class, restricted to ASCII. It has no contract of its own; Runs, RunsOfRun and RunsSeparated state the tokens it yields |
| Text.Lower | monitor.py:67 | `str.lower()` on ASCII: same length, every character mapped by its lower-case counterpart, no upper-case letter left |
| Text.RunLen | monitor.py:67 | the run a string starts with: all its characters match the class, and the next one, if any, does not |
| Text.Runs | monitor.py:67 | `re.findall(r'\w+', s)` / `s.split()`: every piece is a non-empty run of the class. RunsOfRun and RunsSeparated pin down which runs |
| Text.LowerAppend | monitor.py:67 | `str.lower()` works character by character: lower-casing a concatenation is concatenating the lower-cased parts |
| Text.RunsOfRun | monitor.py:67 | a non-empty string made only of class characters is one token |
| Text.RunsSeparated | monitor.py:67 | a character outside the class separates tokens: the tokens of a + c + b are the tokens of a followed by those of b |
| Text.Join | monitor.py:83 | `" ".join(ws)`: the words one space apart. It has no contract of its own; JoinAppend, RunsOfJoin and SplitOnSpaceOfJoin state its properties |
| Text.Fields | crawler.py:190 | `text.split()`: every piece is a non-empty run of non-whitespace characters |
| Text.RunsOfJoin | crawler.py:190 | splitting " ".join of runs gives those runs back |
| Text.JoinAppend | monitor.py:83 | " ".join of a concatenation is the two joins with one space between |
| Text.JoinIsCollapsed | crawler.py:190 | " ".join of non-space runs has no leading, trailing or doubled whitespace |
| Text.Collapse | crawler.py:190 | `" ".join(text.split())`. It has no contract of its own; CollapseKeepsFields, CollapseIsCollapsed and CollapseIdempotent state its properties |
| Text.CollapseKeepsFields | crawler.py:190 | collapsing keeps the words, in order: splitting the result gives the words of the text |
| Text.CollapseIsCollapsed | crawler.py:190 | `" ".join(text.split())` has no leading, trailing or doubled whitespace, and its only whitespace is the plain space |
| Text.CollapseIdempotent | crawler.py:190 | collapsing twice is collapsing once |
| Text.SplitOnSpace | monitor.py:81 | `str.split(" ")`: at least one piece, and no piece holds a space |
| Text.JoinOfSplitOnSpace | monitor.py:81-83 | joining the pieces of `split(" ")` with " " gives the string back |
| Text.SplitOnSpaceOfJoin | monitor.py:81-83 | `split(" ")` undoes `" ".join` for space-free pieces |
| Text.SplitOfSpaceFree | monitor.py:81 | a string without a space splits into itself |
| Text.SplitPrefix | monitor.py:81 | splitting `w + " " + t` with w space-free gives w, then the split of t |
| Text.StripLeft | crawler.py:166 | drops exactly the leading whitespace |
| Text.StripRight | crawler.py:166 | drops exactly the trailing whitespace |
| Text.Strip | crawler.py:166 | `str.strip()`: a slice of the text that only whitespace surrounds, starting and ending with non-whitespace |
| Text.Contains | crawler.py:173-174 | `sub in s`. It has no contract of its own; ContainsAt states its meaning |
| Text.ContainsAt | crawler.py:173-174 | `sub in s` holds exactly when sub occurs at some position of s |
| Text.ContainsTransitive | crawler.py:173-174 | a text containing a string contains every substring of it |
| Text.NatToString | crawler.py:198 | `str(i)` is a non-empty string of digits |
| Text.NatToStringValue | crawler.py:198 | `int(str(i)) == i`: the digits denote the number |
| Text.NatToStringInjective | crawler.py:198 | two numbers are written the same exactly when they are equal |
| Jaccard.Tokens | monitor.py:67-68 | `set(re.findall(r'\w+', s.lower()))`. It has no contract of its own; the TrimExample lemmas compute it for a concrete status |
| Jaccard.IntersectionFillsUnion | monitor.py:74-75 | \|A ∩ B\| ≤ \|A ∪ B\|, with equality only when A = B |
| Jaccard.Similarity | monitor.py:64-77 | the score has a positive denominator and lies in [0, 1]. It is 0 when either token set is empty, even for two identical strings. It is positive exactly when the token sets meet, and it is 1 exactly when they are equal and non-empty |
| Jaccard.TimesIsProduct | monitor.py:92 | the repeated-addition product used in the threshold comparison is multiplication |
| Jaccard.Similar | monitor.py:92 | `similarity >= threshold`, decided exactly by cross-multiplication. It has no contract of its own |
| Jaccard.SimilaritySymmetric | monitor.py:74-77 | the score, and similarity at the default threshold, do not depend on argument order |
| Jaccard.NoTokensNeverSimilar | monitor.py:71-72 | a string without `\w` tokens is similar to nothing at a positive threshold |
| Jaccard.SameTokensSimilar | monitor.py:74-77 | equal non-empty token sets reach every threshold up to 1 |
| Jaccard.SelfSimilar | monitor.py:71-77 | a string with a word in it is similar to itself at every threshold up to 1 |
| Dedup.AnySimilar | crawler.py:43-49 | the early-exit scan answers true exactly when some existing content is similar, and false on an empty list |
| Dedup.Deduplicate | monitor.py:178-199 | the first-fit deduplication, one post at a time. It has no contract of its own; the Dedup lemmas below state its properties |
| Dedup.KeepsNext | monitor.py:184-191 | the keep decision: the lower-cased content has at least 20 characters and is similar to no content kept so far. It has no contract of its own; DeduplicateFirstWins and KeptIsNotSimilar state its meaning |
| Dedup.RemoveDuplicates | monitor.py:178-199 | the loop returns the first-fit deduplication of the batch |
| Dedup.DeduplicateSubsequence | monitor.py:183-193 | the output is an in-order subsequence of the input, and every kept post's lower-cased content has at least 20 characters |
| Dedup.KeptIsNotSimilar | monitor.py:191-193 | a kept post is similar to no post kept before it |
| Dedup.DeduplicateDistinct | monitor.py:183-193 | no kept post is similar to a post kept before it |
| Dedup.DeduplicateExtends | monitor.py:183-196 | a longer batch only appends to the output |
| Dedup.DeduplicateFirstWins | monitor.py:187-196 | the i-th post is appended right after the posts kept before it exactly when it is long enough and similar to none of them; otherwise it is dropped |
| Dedup.DeduplicateIdempotent | crawler.py:213-234 | deduplicating the output again returns it unchanged |
| Dedup.DistinctIsFixedPoint | crawler.py:218-231 | a list of long-enough posts, none similar to an earlier one, is its own deduplication |
| Monitor.CleanContent | monitor.py:80-85 | `_clean_content`. It has no contract of its own; CleanContentDropsLastTokens states its meaning |
| Monitor.TrimmedSimilar | monitor.py:86-92 | the per-pair test: both contents trimmed, then scored against the threshold. It has no contract of its own; TrimmedSimilarSymmetric, TrailingFieldsIgnored and TrimExample.TrimmingDecides state its properties |
| Monitor.CleanContentDropsLastTokens | monitor.py:80-85 | with more than three fields, the result is a prefix of the content: it has exactly the fields other than the last three, and the content is the result, one space, then those three fields. With three fields or fewer, the content is unchanged |
| Monitor.CleanContentAgrees | monitor.py:80-85 | two contents of more than three fields that agree on all but the last three clean to the same string |
| Monitor.TrailingFieldsIgnored | monitor.py:80-91 | two contents of more than three fields that agree on all but the last three are similar after trimming, at any threshold up to 1 (provided a word remains) |
| Monitor.IsSimilarContent | monitor.py:79-94 | true exactly when some existing content, trimmed, reaches the threshold against the trimmed new content; false for an empty list |
| Monitor.TrimmedSimilarSymmetric | monitor.py:86-91 | trimmed similarity at the default threshold does not depend on argument order |
| Monitor.RemoveDuplicates | monitor.py:178-199 | the monitor's deduplicator is the first-fit deduplication under trimmed similarity |
| Monitor.BatchHasNoTrimmedDuplicates | monitor.py:183-193 | no two posts the monitor keeps in a batch are similar after trimming, in either order |
| Monitor.NotifiedRecord | monitor.py:479-483 | the record of a NEW post: its content and date, notified at the cycle's time. It has no contract of its own; RunCycleAnnounced and CycleFirstOccurrence state where it is written |
| Monitor.SkippedRecord | monitor.py:469-474 | the record of a post similar to the snapshot: its content and date, `"skipped_similar"`, skipped at the cycle's time. It has no contract of its own; CycleFirstOccurrence states where it is written |
| Monitor.SeenContents | monitor.py:446 | the snapshot of stored contents taken before the loop, as a set. It has no contract of its own; TruthSocialMonitor.ExistingContents and SnapshotNotRefreshed state its role |
| Monitor.Eligible | monitor.py:455 | the length test: at least 100 characters. It has no contract of its own; Step and CycleKeys state its effect |
| Monitor.Step | monitor.py:450-483 | one post: the store keeps every entry. It gains the post's id exactly when the content has at least 100 characters. Short or already-seen posts change nothing. The post is appended to the NEW list exactly when it is long enough, unseen and similar to nothing in the snapshot |
| Monitor.RunCycle | monitor.py:450-483 | the classification of a batch against a fixed snapshot, post by post. It has no contract of its own; the Cycle lemmas below state its properties |
| Monitor.Cycle | monitor.py:446-483 | one run of the classification, with the snapshot taken from the store before it. It has no contract of its own |
| Monitor.CycleExtends | monitor.py:450-483 | during a cycle no entry is overwritten, not even one written earlier in that cycle, and the NEW list only grows |
| Monitor.CycleKeys | monitor.py:454-483 | after a cycle the store's ids are the old ids plus those of the posts of at least 100 characters |
| Monitor.RunCycleAnnounced | monitor.py:465-483 | every NEW post is long enough, was absent from the store, is similar to nothing in the snapshot, and is recorded as notified at the cycle's time |
| Monitor.RunCycleFoundOrder | monitor.py:450-483 | the NEW list is an in-order subsequence of the posts, with distinct ids |
| Monitor.CycleNewPosts | monitor.py:446-483 | the two lemmas above, for a cycle whose snapshot is the store before it |
| Monitor.CycleFirstOccurrence | monitor.py:461-483 | a post is the first long post with its id, and the id is new. It is recorded as skipped with `"skipped_similar"` if it is similar to the snapshot, and is then not NEW. Otherwise it is recorded as notified and is NEW |
| Monitor.SnapshotNotRefreshed | monitor.py:446-483 | two new, long posts, neither similar to the store, are both NEW however similar they are to each other |
| Monitor.RerunChangesNothing | monitor.py:454-463 | running the cycle again on the same posts, at any later time, finds nothing NEW and changes nothing |
| Monitor.AllSeenIsIdentity | monitor.py:454-463 | posts whose long ones are all already stored leave the store unchanged and add nothing to the NEW list |
| Monitor.TruthSocialMonitor.constructor | monitor.py:35 | the monitor starts with the store it loaded |
| Monitor.TruthSocialMonitor.ExistingContents | monitor.py:446 | one content per stored record, and exactly the stored contents |
| Monitor.TruthSocialMonitor.CheckAndNotify | monitor.py:435-483 | the loop leaves the store and the NEW list that the cycle specification gives for the store it started from, and keeps every old entry |
| Crawler.IsSimilarContent | crawler.py:43-49 | true exactly when some existing content, untrimmed, reaches the threshold; false for an empty list |
| Crawler.RemoveDuplicates | crawler.py:213-234 | the crawler's deduplicator is the first-fit deduplication under untrimmed similarity |
| Crawler.BatchIsSubsequence | crawler.py:213-234 | the output is an in-order subsequence, no longer than the input, and every kept lower-cased content has at least 20 characters |
| Crawler.BatchHasNoDuplicates | crawler.py:222-231 | any two kept posts score below the threshold, in either order |
| Crawler.DroppedIsSimilar | crawler.py:222-231 | a dropped post of at least 20 lower-cased characters is similar to a post kept before it |
| Crawler.SameContentKeptOnce | crawler.py:218-231 | of two posts whose lower-cased contents have the same non-empty token set (the first of at least 20 characters), only the first is kept |
| Crawler.Choose | crawler.py:154-160 | the chosen matches are at least as many as any selector's. When some selector matched, they belong to the first selector with the largest count. When none matched, they are empty and the selector is "" |
| Crawler.ChooseEmpty | crawler.py:154-160 | the choice is empty exactly when no selector matched anything |
| Crawler.SelectElements | crawler.py:151-160 | the selector loop returns the choice |
| Crawler.DateOf | crawler.py:187 | the date read from a child: its text if non-empty, else its `datetime` attribute if non-empty, else "unknown"; never empty |
| Crawler.PostDate | crawler.py:184-187 | with a `time` child, the date is read from that child alone. Without one, it is read from the `[datetime]` child. It is "unknown" when there is neither |
| Crawler.TimeChildDecides | crawler.py:184-187 | when a `time` child exists, the `[datetime]` child does not matter; an empty `time` child gives "unknown" even when the other child has a date |
| Crawler.Accepts | crawler.py:166-195 | the acceptance rules for an element. It has no contract of its own; AcceptsIff states its meaning |
| Crawler.AcceptsIff | crawler.py:166-195 | the element is kept exactly when its stripped text has at least 50 characters and contains "Trump", and its collapsed lower-cased text does not contain both "cookie" and "privacy" |
| Crawler.HandleMentionsTrump | crawler.py:173-174 | "Trump" occurs in "@realDonaldTrump" |
| Crawler.PostId | crawler.py:198 | the id: source, "_post_", the page position, "_", and the time. It has no contract of its own |
| Crawler.IdRevealsPosition | crawler.py:198 | two ids of the same source and time are equal exactly when the page positions are |
| Crawler.IdRevealsTime | crawler.py:198 | two ids of the same source and page position are equal exactly when the times are |
| Crawler.MakePost | crawler.py:187-205 | the built post: its id, the collapsed stripped text as content, the element's date, the fixed author, the source, the selector and the time |
| Crawler.KeptPositions | crawler.py:163-195 | the positions of the kept elements, in increasing order, each of a kept element |
| Crawler.KeptPositionsComplete | crawler.py:163-195 | every kept element's position is listed |
| Crawler.ExtractFrom | crawler.py:162-205 | the `posts` list the element loop builds, for any acceptance test. It has no contract of its own; ExtractFromStep, ExtractFromKept and ExtractFromSpec state its meaning |
| Crawler.ExtractFromStep | crawler.py:163-205 | one more element adds its post exactly when it is kept |
| Crawler.ExtractFromKept | crawler.py:163-205 | the k-th post is built from the element at the k-th kept position |
| Crawler.ExtractFromSpec | crawler.py:163-205 | for any acceptance test: the posts built are, in order, exactly those of the accepted elements, each built from its element and position, with a collapsed content |
| Crawler.Extracted | crawler.py:131-211 | the posts of a page. It has no contract of its own; ExtractedPosts and ExtractedIdsDistinct state its properties |
| Crawler.ExtractedPosts | crawler.py:131-211 | the page's posts are, in page order, the posts built from the accepted elements of the chosen selector, and only those. Each id carries its element's page position, and every content is collapsed |
| Crawler.ExtractedIdsDistinct | crawler.py:163-205 | every post of one extraction has its own id |
| Crawler.BuildPosts | crawler.py:163-205 | the element loop returns the posts built from the accepted elements |
| Crawler.ExtractPosts | crawler.py:131-211 | extraction returns the specified posts of the page |
| TrimExample.TokensOfJoin | monitor.py:67-68 | the tokens of words joined by spaces are the tokens of each word, in order |
| TrimExample.WordTokensMembers | monitor.py:67-68 | a token of the words is a token of one of them, and conversely |
| TrimExample.StatusSplit | monitor.py:81 | `split(" ")` of the status gives its nine fields |
| TrimExample.StatusTrimmed | monitor.py:80-85 | `_clean_content` keeps the first six fields of the status |
| TrimExample.TrimmedTokenSet | monitor.py:67-68 | the token set of the trimmed status is {statement, one, two, three, h, m, am} |
| TrimExample.FullTokenSet | crawler.py:31-32 | the token set of the whole status adds the repost count and "retruths" |
| TrimExample.TrimmedScore | monitor.py:64-91 | trimmed, two readings of the status at the same hour h with different minutes m and m' (h, m, m' distinct) score 6/8 |
| TrimExample.FullScore | crawler.py:28-41 | untrimmed, with different minutes and different repost counts (all five numbers distinct), they score 7/11 |
| TrimExample.TrimmingDecides | monitor.py:79-94 | at 0.7 the monitor's test finds the later reading similar to the earlier one; the crawler's test (crawler.py:43-49) does not |
| TrimExample.Example | monitor.py:79-94 | the above for "... 10:45 AM · 203 Retruths" against "... 10:30 AM · 180 Retruths" |

## Left out

- Browser automation (Playwright navigation, scrolling, waits, screenshots, page dumps), email sending, recipients, JSON loading and saving of `seen_posts` and of the crawled posts, the schedule loop and logging. They are I/O around the detector. A page is modelled by what each selector matches. An element is modelled by its text and date children.
- The monitor's own copy of the extraction code (monitor.py:96-176) is the same code as crawler.py:131-211 and is modelled once, in `Crawler`.
- `datetime.now()`: the model takes one `now` per cycle and per extraction. The source reads the clock for every post, so within a run the model's timestamps are equal where the source's may differ by microseconds.
- `Text.IsWordChar` and `Text.LowerChar` are ASCII only. Python's `\w` and `str.lower()` are Unicode-aware, and `str.lower()` can change a string's length for a few characters. `str.isspace()` is modelled with Python's full whitespace set.
- Jaccard.Similarity: does not model the floating-point division and the comparison of a double against 0.7. The score is compared as an exact fraction. The two agree except when the double rounds across the threshold.
- The `union > 0` fallback of the scorer is unreachable once both token sets are non-empty and is not modelled.
- `post.get(key, default)`: posts and records are records with every field present. The defaults for missing keys are not modelled.
- The `try`/`except` around each element and each cycle: exceptions raised by the browser are not modelled.
- TrimExample.Example: the two statuses are written as `Status("10", "45", "203")` and `Status("10", "30", "180")`, the nine fields joined by spaces, not as string literals. The example shows the similarity tests alone: at 47 characters, such a status is below the 100-character length at which the monitor classifies a post.
- Monitor.TruthSocialMonitor.CheckAndNotify: covers the classification loop over already fetched posts. Fetching and the notification email are outside the model.
- Crawler.PostDate: a child element's `inner_text()` is taken as given. Its text is modelled as a plain field.
- config.py holds only environment-variable constants and is not part of this model.

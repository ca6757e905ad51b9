# scrapscrap: a Dafny model of the scraper's bookkeeping

scrapscrap scrapes a phpBB forum section. It has two scripts.

- `script0.1.py` lists the threads of the section. It scrapes the posts of each thread, parses their dates and merges what it found into the archive `scraped_data.json`. It also keeps a watermark and a mode in `state.json`, so that the next run only fetches newer posts.
- `filter.py` selects the threads of such a JSON file whose title contains one of a list of patterns.

This project models the logic between the network and the files and proves what that logic promises. The network, the HTML and the files are not modelled. The HTML selectors' results arrive as plain values: the anchors of each listing page, and the fields of each post element.

Modules, one per file:

- `Wrappers`: `Option`, `Result`, `Flatten`, and the subsequence relation.
- `Text`: digits and their decimal values, Python's `isspace`, `\w`, `lower()`/`upper()` on ASCII and Polish letters, substring search, `strip()`.
- `Instants`: UTC instants to the second, the calendar check of `datetime`, and the order of aware datetimes.
- `Records`: the post and thread records of the archive.
- `DateParse`: `parse_date`. The long Polish form is matched by a small grammar standing in for the regular expression. The four `strptime` formats follow the field rules of CPython's `_strptime`.
- `DateExamples`: `parse_date` on sample strings.
- `PostScrape`: the post loop of `scrape_thread`, covering the post id, acceptance, the incremental scope and truncation.
- `ThreadIndex`: the anchor loop of `get_gpw_threads`, covering filtering, id extraction and de-duplication.
- `Archive`: `update_output_file`. The archive is a class whose `threads` the merge updates in place. Its result is specified by the function `Merged`.
- `Sync`: `load_state`, `save_state` and the run of `main`, from the mode decision to the saved state.
- `TitleFilter`: `filter_threads_by_title` over a JSON value.

The loops of the source that build or update state are methods with loop invariants. Each is proved equal to a specification function. The format loop of `parse_date` only tries alternatives in turn, so it is the recursive function `FirstFormat`. The properties are proved as lemmas about those functions.

Where the specification of the system and the code disagree, the model follows the code:

- A run that fails to log in, or that finds no thread, returns without saving the state. The specification says the state is rewritten at the end of every run.
- The pagination loops keep no set of visited URLs. The specification asks for one.

## Model

| member | source | states |
|---|---|---|
| Text.Strip | script0.1.py:385 | the result is a slice of the input with only whitespace around it, and it neither starts nor ends with whitespace |
| Text.Contains | filter.py:57 | `pattern in text` holds iff the pattern occurs at some position of the text |
| Text.Lower | filter.py:49 | lower-cases each character, keeping the length; no ASCII or Polish capital is left |
| Text.Upper | script0.1.py:310 | upper-cases each character, keeping the length; no ASCII or Polish small letter is left |
| Text.LowerIdempotent | filter.py:49-50 | lower-casing twice is lower-casing once |
| Text.UpperOfLower | script0.1.py:310 | upper-casing a lower-cased text is upper-casing the text |
| Instants.BeforeIsStrictTotalOrder | script0.1.py:502 | `<` on aware datetimes is irreflexive, asymmetric, transitive and total |
| Instants.Latest | script0.1.py:636-637 | the later of two instants is one of them and is before neither |
| Instants.DaysInMonth | script0.1.py:410-411 | month lengths of the Gregorian calendar; 29 days exactly for February of a leap year |
| DateParse.Token | script0.1.py:404 | a greedy `\d{lo,hi}`, `\s+` or `\w+` takes between lo and hi characters of its class, and token plus rest is the input |
| DateParse.TokenExact | script0.1.py:404 | a token followed by a character outside its class is taken exactly |
| DateParse.MatchLongForm | script0.1.py:404 | a match at the start yields five well-formed groups: a 1-2 digit day, a month name, a 4-digit year, a 1-2 digit hour and a 2-digit minute |
| DateParse.MatchNameYear | script0.1.py:404 | the groups after the day keep the day and have the digit counts of the pattern |
| DateParse.MatchTime | script0.1.py:404 | the optional comma, blank and `HH:MM` fill only the hour and minute groups |
| DateParse.SearchLongForm | script0.1.py:404-405 | `re.search` returns well-formed groups when it finds a match |
| DateParse.SearchIsLeftmost | script0.1.py:404-405 | `re.search` gives the match at the leftmost position where the long form matches, and nothing only when no position matches |
| DateParse.FromLongForm | script0.1.py:406-413 | no instant for a month name outside the table (looked up lower-cased); otherwise the instant of the groups' year, month, day, hour and minute with second 0, present exactly when it is a real calendar date |
| DateParse.NumberField | script0.1.py:416-425 | a one-or-two-digit `strptime` field takes at least one character and no more than there are |
| DateParse.Strptime | script0.1.py:425 | `strptime` yields only real calendar instants |
| DateParse.FirstFormat | script0.1.py:416-427 | the result is that of the first format that parses; it is absent iff no format parses |
| DateParse.ParseDate | script0.1.py:379-429 | whatever `parse_date` returns is a real calendar instant |
| DateParse.LongFormDate | script0.1.py:403-413 | a long form found in the text yields only a real calendar instant |
| DateParse.BlankAbsent | script0.1.py:381-385 | an empty or all-whitespace string gives no date |
| DateParse.LongFormNeedsTwoSpaces | script0.1.py:404 | the long form cannot match text with at most one whitespace character |
| DateParse.NoLongForm | script0.1.py:404-405 | `re.search` finds no long form anywhere in such text |
| DateParse.DayFirstRejects | script0.1.py:416-427 | a day-first format fails when the third character is not its separator |
| DateParse.IsoRejects | script0.1.py:419 | the ISO format fails when the third character is not a digit |
| DateParse.OnlyFormat | script0.1.py:423-427 | when only one format parses, the format loop returns its result |
| DateParse.NumericOnly | script0.1.py:403-427 | stripped text with at most one whitespace character is parsed by the numeric formats alone |
| DateParse.DayFirstStrptime | script0.1.py:417-425 | `%d.%m.%Y %H:%M`, `%d-%m-%Y %H:%M` and `%d/%m/%Y %H:%M` read zero-padded text back to its instant iff the instant is real |
| DateParse.DayFirstOnlyFormat | script0.1.py:416-427 | text starting with two digits and a day-first separator is read by that format alone |
| DateParse.DayFirstParsed | script0.1.py:379-429 | `DD.MM.YYYY HH:MM`, `DD-MM-YYYY HH:MM` and `DD/MM/YYYY HH:MM` parse to exactly their instant when it is real, and to nothing otherwise |
| DateParse.IsoStrptime | script0.1.py:419-425 | `%Y-%m-%d %H:%M:%S` reads zero-padded text back to its instant iff the instant is real |
| DateParse.IsoOnlyFormat | script0.1.py:416-427 | text starting with three digits is read by the ISO format alone |
| DateParse.IsoParsed | script0.1.py:379-429 | `YYYY-MM-DD HH:MM:SS` parses to exactly its instant when it is real, and to nothing otherwise |
| DateParse.LongFormMatch | script0.1.py:404-406 | the long-form text `DD name YYYY, HH:MM` yields exactly its five groups |
| DateParse.NoNumericFormat | script0.1.py:416-427 | no numeric format parses text that starts with two digits followed by neither a digit nor a day-first separator |
| DateParse.FromLongText | script0.1.py:406-413 | the groups of a long-form text give the instant of its numbers and its month, when the month is known and the date is real |
| DateParse.LongFormOnly | script0.1.py:403-429 | long-form text is decided by the long form alone |
| DateParse.LongFormParsed | script0.1.py:388-413 | `DD name YYYY, HH:MM` with a known month name (matched lower-cased) parses to that instant when it is real, and to nothing otherwise |
| DateExamples.LongFormSample | script0.1.py:403-411 | "05 sierpnia 2024, 14:30" parses to 2024-08-05 14:30 UTC |
| DateExamples.DayFirstSample | script0.1.py:417 | "05.08.2024 14:30" parses to 2024-08-05 14:30 UTC |
| DateExamples.FebruarySample | script0.1.py:423-429 | "31.02.2024 10:00" gives no date rather than an error or a default |
| DateExamples.IsoSample | script0.1.py:419 | "2024-08-05 14:30:00" parses to 2024-08-05 14:30:00 UTC |
| PostScrape.PostIdOf | script0.1.py:458-463 | the id is the element id minus its leading 'p'; without one, the name of the element's named anchor; without either, it is `post_<kept+1>`; it is empty exactly in the cases `HasEmptyId` names |
| PostScrape.Truncate | script0.1.py:507 | `content[:9500]`: at most 9500 characters, and a prefix of the content |
| PostScrape.KeptPosts | script0.1.py:499-509 | every kept post has an id, a known author, content of at most 9500 characters, and a date in the run's scope |
| PostScrape.KeptStep | script0.1.py:499-509 | one more element adds its stored post exactly when it is admitted |
| PostScrape.ScanPostPage | script0.1.py:455-509 | the element loop of a page extends the posts kept from the earlier pages as `KeptPosts` says |
| PostScrape.CheckPost | script0.1.py:458-509 | the checks on one element store a post exactly when it is admitted, with the id derived from the posts kept so far |
| PostScrape.ScanPostStep | script0.1.py:499-509 | the loop step: element `i` is stored after the earlier posts iff admitted |
| PostScrape.ScrapeThread | script0.1.py:433-509 | the posts of a thread are `KeptPosts` of its elements, page after page |
| PostScrape.KeptPostsAreAdmitted | script0.1.py:499-509 | the kept posts are the admitted elements, one post each, in order, the k-th numbered after k kept posts |
| PostScrape.AtWatermarkDropped | script0.1.py:502 | in an incremental run a post dated exactly at the watermark is dropped |
| PostScrape.InitialRunAdmitsComplete | script0.1.py:500-502 | in an initial run an element is kept iff it is complete, whatever its date |
| ThreadIndex.IdDigitsAt | script0.1.py:322-324 | the group of `t=(\d+)` is a non-empty run of digits |
| ThreadIndex.IdFrom | script0.1.py:322 | the leftmost match of `t=(\d+)` from a position: none iff no position matches, else the group of the first match |
| ThreadIndex.ThreadIdOf | script0.1.py:322-324 | a thread id is a non-empty string of digits |
| ThreadIndex.StubOf | script0.1.py:296-331 | an anchor yields a stub iff it has href and title, is no pager link, is not skip-listed and has an id; the stub keeps its title and URL |
| ThreadIndex.StubsUnique | script0.1.py:326-333 | no two stubs share an id |
| ThreadIndex.StubIdsAppend | script0.1.py:333 | adding a stub adds its id to the seen set |
| ThreadIndex.StubsStep | script0.1.py:326-333 | one more anchor adds its stub iff it yields one whose id was not seen |
| ThreadIndex.ScanStep | script0.1.py:295-333 | the loop step for anchor `i` of a page after the earlier pages |
| ThreadIndex.StubsCover | script0.1.py:322-333 | every id some anchor yields has a stub |
| ThreadIndex.StubsSound | script0.1.py:326-333 | each stub is the stub of the first anchor that yields its id |
| ThreadIndex.StubsComplete | script0.1.py:326-333 | the first anchor of each id yields a kept stub |
| ThreadIndex.StubsFirst | script0.1.py:322-333 | a stub is kept iff it is the stub of the first anchor yielding its id |
| ThreadIndex.StubsInOrder | script0.1.py:295-333 | the stubs are a subsequence of the stubs of all anchors, in page order |
| ThreadIndex.ShouldSkip | script0.1.py:307-316 | the skip loop says skip iff some skip-list title is in the title, both upper-cased |
| ThreadIndex.CheckAnchor | script0.1.py:296-324 | the checks made on one anchor, in source order, give its stub |
| ThreadIndex.ScanPage | script0.1.py:295-334 | the anchor loop of a page extends the stubs and the seen-id set of the earlier pages as `Stubs` says |
| ThreadIndex.GetThreadStubs | script0.1.py:265-334 | the thread list is `Stubs` of the anchors of all pages in visiting order |
| Archive.FreshPosts | script0.1.py:74-77 | the posts kept are exactly the incoming posts whose id was not seen |
| Archive.MergeThread | script0.1.py:72-79 | a merged thread keeps its id, URL and first author; takes the incoming title; keeps its posts as a prefix; adds exactly the incoming posts with an unseen id |
| Archive.LastIndex | script0.1.py:69 | the lookup finds the last thread with the id, as a dict built in order keeps it |
| Archive.MergedAt | script0.1.py:69-79 | each existing thread keeps its id, URL, first author and posts as a prefix, and changes only if the batch names its id |
| Archive.NewThreads | script0.1.py:80-81 | the appended threads are exactly the incoming threads whose id is not in the archive |
| Archive.Merged | script0.1.py:69-81 | the new archive is the existing threads in place, each merged, followed by the new threads |
| Archive.ArchiveFile.Empty | script0.1.py:66-67 | the archive used when the file cannot be read: no threads, source "PortalAnaliz.pl" |
| Archive.ArchiveFile.UpdateWith | script0.1.py:69-83 | the merge loop leaves `threads` equal to `Merged` of the old threads and stamps the archive with the given time |
| Archive.AppendNewPosts | script0.1.py:74-77 | the post loop appends the fresh posts to the thread's posts |
| Archive.MergedAppendExisting | script0.1.py:72-79 | one more incoming thread with a known id replaces the thread the lookup finds by its merge |
| Archive.MergedAppendNew | script0.1.py:80-81 | one more incoming thread with a new id is appended |
| Archive.FreshPostsSubsequence | script0.1.py:74-77 | the appended posts keep their incoming order |
| Archive.NewThreadsSubsequence | script0.1.py:80-81 | the appended threads keep their batch order |
| Archive.FreshPostsUnique | script0.1.py:74-77 | unique incoming post ids give unique appended ids |
| Archive.MergeKeepsPostIdsUnique | script0.1.py:74-77 | merging keeps post ids unique when both sides have unique post ids |
| Archive.DuplicateIncomingPostsKept | script0.1.py:74-77 | an incoming thread that repeats a new post gets both copies appended, since the seen set is computed once |
| Archive.NoFreshPosts | script0.1.py:74-77 | incoming posts that are all known add nothing |
| Archive.MergeThreadIdempotent | script0.1.py:72-79 | merging the same incoming thread twice is merging it once |
| Archive.MergeThreadSelf | script0.1.py:72-79 | merging a thread with itself changes nothing |
| Archive.LastIndexAt | script0.1.py:69 | the lookup finds position `i` iff no later thread has its id |
| Archive.NewThreadsUnique | script0.1.py:80-81 | a batch with unique ids appends threads with unique ids |
| Archive.MergedKeepsThreadIdsUnique | script0.1.py:69-81 | an archive and batch with unique thread ids merge into an archive with unique thread ids |
| Archive.MergedAtFixed | script0.1.py:69-79 | after a merge, merging the same batch again leaves each thread as it is |
| Archive.NoNewThreads | script0.1.py:71-72 | a batch of known ids appends no thread |
| Archive.BatchIdsMerged | script0.1.py:71-81 | every incoming thread id is in the merged archive |
| Archive.MergedIdempotent | script0.1.py:69-81 | merging the same batch twice is merging it once |
| Sync.LoadState | script0.1.py:37-49 | a missing or unreadable state file, or one without a readable timestamp, gives 2000-01-01 UTC in initial mode; otherwise its timestamp, and the mode stored there (incremental when missing) |
| Sync.StartState | script0.1.py:564-570 | `--full` forces initial mode at the epoch; otherwise the loaded state is used |
| Sync.Newest | script0.1.py:611-637 | the new watermark is at or after the old one and every post, and is the old one or some post's time |
| Sync.NewData | script0.1.py:610-628 | every record has posts and comes from a scanned stub |
| Sync.AdvanceNewest | script0.1.py:634-637 | the watermark loop over one thread's posts computes `Newest` |
| Sync.ScrapeThreads | script0.1.py:610-637 | the thread loop builds `NewData` of the scanned stubs and carries the newest time over all their posts |
| Sync.Run | script0.1.py:564-673 | a run saves nothing after a failed login or with no thread found; otherwise it saves its outcome, and when it has new data it merges that data into the archive and stamps the archive with the run time; the source name never changes and the archive is untouched otherwise |
| Sync.NewestAppend | script0.1.py:634-637 | carrying the newest time thread after thread is the newest time over all posts |
| Sync.NewDataStep | script0.1.py:619-628 | one more stub adds a record exactly when it has kept posts |
| Sync.ScrapeStep | script0.1.py:614-637 | the loop step: stub `i` adds its record and carries the newest time into its posts |
| Sync.ScannedUnique | script0.1.py:614 | the first `limit` stubs keep unique ids |
| Sync.NewDataUnique | script0.1.py:622 | the records of stubs with unique ids have unique thread ids, as the keys of `all_new_data` do |
| Sync.SaveState | script0.1.py:51-58 | the file written holds both keys, and `load_state` reads back exactly the state saved |
| Sync.Outcome | script0.1.py:603-673 | a run past login saves nothing iff it found no thread; otherwise incremental mode and a watermark at or after the old one and every kept post, which is the old one or some kept post's time |
| Sync.NewDataInScope | script0.1.py:619-627 | every post of `all_new_data` is in the run's scope |
| Sync.IncrementalRunAdvances | script0.1.py:634-673 | an incremental run that keeps a post saves a watermark strictly after the old one |
| TitleFilter.Get | filter.py:31 | `dict.get` finds a value iff some member has the key, and the value is that of the last member with the key |
| TitleFilter.Container | filter.py:29-36 | a non-dict is the list itself; a dict gives the first of `threads`, `data`, `items` it has when that is truthy; when that one is empty or false, or it has none, an empty dict gives `[]`, a dict whose first value is a scalar gives `[data]`, and any other its values in order |
| TitleFilter.TitleOf | filter.py:44 | the title is `thread_title`, else `title`, else `name`, else "" |
| TitleFilter.Membership | filter.py:57 | `pattern in title` on a string title is substring containment |
| TitleFilter.MatchPatterns | filter.py:53-59 | the pattern loop with its `break` computes `FirstMatch` |
| TitleFilter.CheckThread | filter.py:41-59 | the handling of one walked element computes `KeepThread` |
| TitleFilter.FilterThreadsByTitle | filter.py:21-59 | the function returns `ThreadsByTitle` of the document, or the error it raises |
| TitleFilter.FilteredStep | filter.py:41-59 | the loop step: element `i` is appended iff it is kept, and an error stops the loop |
| TitleFilter.FailureStays | filter.py:41-59 | once an element raises, the result is that error |
| TitleFilter.FirstMatchOnString | filter.py:53-59 | on a string title the pattern loop answers whether some pattern is a substring |
| TitleFilter.MatchRule | filter.py:49-58 | a dict with a string title is kept iff some pattern is in the title, both lowered unless the match is case-sensitive |
| TitleFilter.NonDictSkipped | filter.py:43-46 | a non-dict element is never kept |
| TitleFilter.FilteredSucceeds | filter.py:41-59 | the loop succeeds iff no element raises |
| TitleFilter.FilteredKeepsMatches | filter.py:39-59 | the result is a subsequence of the threads, and holds exactly the dict threads that are kept |
| TitleFilter.DefaultPatternsUsed | filter.py:21-22 | no patterns means `['xtb', 'trn']` |

## Left out

- Login, session setup and the login retry loop: network I/O. `Sync.Run` takes whether a login attempt succeeded as a parameter.
- HTML selection through BeautifulSoup: anchors arrive as (href, stripped title, joined URL), and post elements arrive as the values their selectors produced. This includes the text captured by the `»` date pattern, which is then stripped and parsed.
- `urljoin`: the joined URL is an input of each anchor.
- Pagination: following "next" links. The listing and thread pages arrive as the sequence of pages visited, in order. A cyclic next link, which the source does not guard against, is therefore not modelled.
- The `threads[:6]` cap: it is the parameter `limit` of `Sync.Run`.
- Reading and writing `state.json`, `scraped_data.json` and the filter's files; `print`, `time.sleep`, `sys.argv` (the `--full` flag is a boolean); reading the clock (`now` is a parameter of `UpdateWith`).
- `datetime.fromisoformat` and `isoformat`: instants are stored as values. The state file's timestamp arrives already read, or as absent when it is unreadable.
- Exceptions caught per post and per thread (`except Exception`): the model's operations do not raise, except where modelled as `Result` in the title filter.
- `filter_threads_regex` and the filter's `main`.
- Unicode beyond ASCII and the Polish letters: `isspace`, `\w`, `\d`, `lower()` and `upper()` are modelled on ASCII plus the Polish letters. Python accepts more, for example non-ASCII digits, other scripts' letters, and case mappings that change the length.
- JSON floats: numbers are integers. A JSON object with a repeated key keeps all its members in `Values`, where Python keeps one entry per key.
- Thread records are values: the aliasing between `existing_threads` and `data['threads']` is modelled by updating the thread at the index the dictionary lookup finds.
- DateParse.ParseDate: only ASCII digits count as `\d`. This is stricter than Python's `re`, which also accepts other Unicode decimal digits.

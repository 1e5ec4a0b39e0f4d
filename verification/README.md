# Instagram followers and bio scrapers — a verified model of their decisions

The repository holds two browser-automation scripts.

- `followers-scraper.py` opens a profile with Playwright and clicks its followers link. It then scrolls the followers dialog, collecting each username with the display name shown beside it, until it has enough usernames or 400 scrolls in a row bring nothing new.
- `bio-scraper.py` injects session cookies into Selenium and visits each target profile. It keeps the profiles whose bio or bio link mentions a word from a fixed list.

This project models the logic inside that browser plumbing:

- the follower-harvesting loop: first-seen deduplication, insertion order, the stall counter and termination;
- parsing a username out of an href, and picking the display name out of an anchor's text;
- the two cookie converters, and the loop that injects cookies with one retry;
- where the cookies are loaded from;
- username and target-list splitting;
- the debug-file name rules;
- the login-page title tests;
- the word-list match;
- the choice of the bio link.

The browser appears only as inputs:

- `render(k)` is the list of anchors that round `k` of the loop sees. Each anchor is an href read and an inner-text read, and either read may raise.
- `ProfilePage` records what the profile page yielded before the loop.
- `AddOracle` is the driver's answer to `add_cookie`.
- The environment variables, `usernames.txt`, the typed answer and the cookie files are parameters.

Modules:

- `Wrappers` holds `Option`.
- `Text` covers the Python `str` operations the scripts use: `strip`, `lstrip(c)`, `split`, `startswith`, `in`, `lower`.
- `Json` covers parsed JSON values, `dict.get`, truthiness, `int()` and `str()`.
- `Anchors` covers hrefs and display names.
- `Harvest` is the collect/scroll/stall loop and its reference specification.
- `FollowersScraper` and `BioScraper` hold the rest of each script.

## Where the code and its description differ

The model follows the code.

- The loop never truncates `collected` to `max_followers`. The pass that crosses the limit keeps every new username it reads; `Harvest.CapCanBeOvershot` exhibits this.
- The only bound on the loop is the stall cap of 400. There is no separate attempt cap. Round 1 always resets the stall counter, because `last_len` starts at -1, so a dialog that never yields a username runs 401 rounds, not 400.
- The followers link is located in two tiers only: the exact href, then a link whose text contains "followers".
- Both title tests are case-sensitive substring tests. The followers script also treats "Sign up" as a login page; the bio script does not.

## Model

| member | source | states |
|---|---|---|
| Anchors.UserFromHref | followers-scraper.py:79-86 | any username parsed from an href is non-empty and contains no `/` |
| Anchors.UserFromHrefExactly | followers-scraper.py:79-86 | an href yields `u` exactly when it is `"/"+u` or `"/"+u+"/"` with `u` non-empty and slash-free; so an empty or missing href, `"/"` alone and multi-segment paths yield nothing |
| Anchors.DisplayName | followers-scraper.py:183-186 | the display name is "" or a non-empty line with no surrounding whitespace |
| Anchors.DisplayNameIsSecondLine | followers-scraper.py:183-186 | the display name is the second non-blank stripped line of the anchor text, or "" when there are fewer than two; stripping the whole text first changes nothing |
| Text.KeepLine | followers-scraper.py:185 | one line gives either nothing or a single non-empty item without surrounding whitespace |
| Text.NonBlankStrippedAreStripped | followers-scraper.py:185 | every item left after stripping the lines and dropping blank ones is non-empty and stripped |
| Text.NonBlankStrippedSnoc | followers-scraper.py:185 | the comprehension over a list with one more line is the old result followed by what that line gives |
| Text.NonBlankStrippedKeeps | followers-scraper.py:185 | a list of already stripped, non-empty items passes through unchanged |
| Text.Strip | followers-scraper.py:183 | `strip()` gives text no longer than the input that neither starts nor ends with whitespace |
| Text.StripSurround | followers-scraper.py:183 | the input is its stripped text with whitespace-only text before and after it |
| Text.StripIdempotent | followers-scraper.py:183 | stripping twice is stripping once |
| Text.Split | followers-scraper.py:224 | `split(sep)` gives at least one piece and no piece contains the separator |
| Text.JoinSplit | followers-scraper.py:224 | joining the pieces of a split with the separator gives back the text |
| Text.SplitJoin | followers-scraper.py:224 | splitting a join of separator-free pieces gives back the pieces |
| Text.LStripChar | bio-scraper.py:99 | `lstrip(c)` removes exactly the leading run of `c`, leaving a suffix that does not start with `c` |
| Text.ContainsWithin | followers-scraper.py:118 | a substring of a text is a substring of any text around it |
| Harvest.ReadPass | followers-scraper.py:171-191 | one pass over the anchors in order: an anchor whose href cannot be read or names no user is skipped, and a known username is never overwritten; the result is the reference `AbsorbAll` |
| Harvest.CollectFollowers | followers-scraper.py:162-208 | the loop ends after the first round where `collected` holds at least `max_followers` usernames or 400 rounds in a row added none; every earlier round met the `while` condition; `max_followers <= 0` runs no round; a positive `max_followers` bounds the rounds by `401*(max_followers+1)`; the result is the first-seen record of every username sighted, in first-seen order with its first display name |
| Harvest.AbsorbAllExtends | followers-scraper.py:171-191 | a pass never removes, reorders or renames what was already collected |
| Harvest.RunGrows | followers-scraper.py:163-208 | `collected` only grows across rounds: earlier keys stay a prefix and earlier names stay |
| Harvest.PassRecordsAll | followers-scraper.py:171-191 | after a pass, every username an anchor of the pass names is in `collected` |
| Harvest.KnownPassChangesNothing | followers-scraper.py:177-178 | a pass that names only known usernames leaves `collected` unchanged |
| Harvest.RereadAddsNothing | followers-scraper.py:171-191 | reading the same rendered anchors twice adds nothing the second time |
| Harvest.StallMeansNoGrowth | followers-scraper.py:204-208 | `scroll_tries` equal to `t` after round `n` means the last `t` rounds added nothing, and the first round always resets the counter |
| Harvest.StallCounts | followers-scraper.py:204-208 | after a reset, `scroll_tries` equals the number of rounds in a row that added nothing |
| Harvest.StallConvergence | followers-scraper.py:167-208 | once growth stops after a reset, the loop stops within `StallLimit` (400) rounds, whatever `max_followers` is |
| Harvest.NoGrowthRunsOneRoundPastLimit | followers-scraper.py:164-208 | a dialog that never yields a new username stops after round 401, and not before it on account of the stall counter: round 1 resets the counter because `last_len` starts at -1 |
| Harvest.ExitReason | followers-scraper.py:167-208 | when the loop stops, `collected` has reached `max_followers` or the last 400 rounds added nothing |
| Harvest.CapCanBeOvershot | followers-scraper.py:167-191 | with `max_followers` 1, one pass over two new usernames records both, so the loop ends with 2 |
| Harvest.FirstIndex | followers-scraper.py:177-178 | the first position of a username among all sightings, or the log's length when it was never seen |
| Harvest.RunIsFirstSeen | followers-scraper.py:163-191 | after any number of rounds, `collected` has no duplicate and holds exactly the usernames sighted so far, ordered by first sighting, each with the display name of its first sighting |
| Harvest.RecordIsFirstSeen | followers-scraper.py:177-189 | the first-seen fold over a sighting log meets the first-seen specification |
| Harvest.AbsorbAllRecords | followers-scraper.py:171-191 | a pass over anchors is the first-seen fold over the sightings they yield |
| Harvest.NewStepKeepsFirstSeen | followers-scraper.py:189 | recording a new username at the end keeps the first-seen specification |
| Harvest.KnownStepKeepsFirstSeen | followers-scraper.py:177-178 | skipping a known username keeps the first-seen specification |
| FollowersScraper.PlaywrightDomain | followers-scraper.py:46 | the domain is `domain` if truthy, else `host` if truthy, else "www.instagram.com"; it is always truthy |
| FollowersScraper.LayoutEntries | followers-scraper.py:42-57 | the rebuilt dict holds name, value and domain always, each optional entry exactly when it was decided on, each under its own key with its decided value, and no other key |
| FollowersScraper.ToPlaywrightKeys | followers-scraper.py:42-57 | name, value and domain are always present; `path` exactly when truthy; `expires` exactly when truthy and numeric; `httpOnly` and `secure` exactly when not None; no other key |
| FollowersScraper.ToPlaywrightCopies | followers-scraper.py:43-47 | name and value are copied (None when missing) and the domain is the first truthy of `domain`, `host` and the default |
| FollowersScraper.ToPlaywrightOptional | followers-scraper.py:49-56 | a present `path` is the cookie's path, a present `expires` is the cookie's number as an int, and present `httpOnly` and `secure` are the truthiness of the cookie's values |
| FollowersScraper.CookiesToPlaywright | followers-scraper.py:39-58 | no result exactly when some element of the list is not a dict, where `c.get` raises; otherwise one converted cookie per element, in the same order |
| FollowersScraper.SafeDebugName | followers-scraper.py:61 | the debug name has the length of the name capped at 60, consists of `[0-9A-Za-z._-]` only, keeps those characters in place and puts `_` for every other |
| FollowersScraper.SafeDebugNameIdempotent | followers-scraper.py:61 | the rule leaves its own output unchanged |
| FollowersScraper.LoginPageTitleWithin | followers-scraper.py:118 | a title containing "Log in", "Login" or "Sign up" is detected whatever surrounds it |
| FollowersScraper.TargetList | followers-scraper.py:224 | every target is non-empty, stripped and free of commas |
| FollowersScraper.TargetListOfJoin | followers-scraper.py:224 | stripped, comma-free targets joined with commas read back as the same list |
| FollowersScraper.LocateFollowersLink | followers-scraper.py:127-139 | the exact href is clicked whenever it is present; the "followers" text link only when it is not; otherwise the link is not found |
| FollowersScraper.ScrapeFollowersOf | followers-scraper.py:104-208 | the scrape fails exactly when the page does not load, the title looks like a login page, no followers link is found, the click raises or the dialog does not appear; otherwise it returns what the loop collected, with the loop's guarantees |
| Json.NatToDecimal | bio-scraper.py:58 | `str(n)` is a non-empty digit string whose value is `n`, with no leading zero; it starts with `0` exactly when `n` is 0 |
| Json.DictOfDistinct | bio-scraper.py:37-43 | on items with distinct keys, the dict holds exactly their keys, each with its own item's value |
| Json.ParseIntOfDecimal | bio-scraper.py:58-64 | `int(str(i)) == i` for every int |
| BioScraper.FirstListMember | bio-scraper.py:41-43 | the position of the dict's first list-valued item, with no list-valued item before it |
| BioScraper.FirstListFile | bio-scraper.py:47-54 | the position of the first cookie file that parsed as a list; files before it are missing, unreadable or not lists |
| BioScraper.LoadCookies | bio-scraper.py:32-55 | what the variable gives wins; otherwise the first file that parsed as a list; None exactly when neither gives a list |
| BioScraper.EnvCookieShapes | bio-scraper.py:35-46 | a parsed list is returned as is; a parsed dict gives a list exactly when one of its items is a list; unparseable text longer than 10 characters without `=` becomes one `sessionid` cookie; other unparseable text gives nothing |
| BioScraper.NormalizeForSelenium | bio-scraper.py:57-72 | keys are name, value, domain, path, and expiry only when one converts; the value is always text, with "" for a missing value and a text value kept as is; domain defaults to ".instagram.com" and path to "/"; the expiry is the converted `expires` when that key is present, else the converted `expiry` |
| BioScraper.NormalizeCookie | bio-scraper.py:57-72 | filling the record one field at a time gives `NormalizeForSelenium` |
| BioScraper.BadExpiresHidesExpiry | bio-scraper.py:62-71 | an `expires` that cannot be converted leaves no expiry, even when `expiry` is valid |
| BioScraper.RetryCookie | bio-scraper.py:97-99 | the retry copy differs only in its domain; a domain starting with "." loses its leading dots, any other text domain is kept; a domain that is not text raises, so there is no retry |
| BioScraper.RetryDomainHasNoLeadingDot | bio-scraper.py:97-99 | the retried domain does not start with "." and differs from the original only by leading dots removed |
| BioScraper.InjectCookies | bio-scraper.py:74-108 | 0 for a missing or empty list; otherwise the number of cookies that are dicts, have a truthy name, and were accepted on the first try or on the retry; never more than the number of cookies |
| BioScraper.InjectedAreNamed | bio-scraper.py:84-88 | no more cookies are added than there are dicts with a truthy name |
| BioScraper.Handles | bio-scraper.py:114-119 | no more usernames than pieces, and no username starts with `@` |
| BioScraper.TargetUsernames | bio-scraper.py:111-119 | no username starts with `@`, whichever source supplied them |
| BioScraper.FirstSetVariable | bio-scraper.py:112 | the `or` chain picks the first variable that is set and non-empty |
| BioScraper.VariableWins | bio-scraper.py:112-114 | a set variable decides the usernames, whatever `usernames.txt` or the prompt would give |
| BioScraper.FileWinsOverPrompt | bio-scraper.py:115-119 | with no variable set, an existing `usernames.txt` decides, whatever would be typed |
| BioScraper.Visited | bio-scraper.py:292-295 | every username `main` visits is non-empty and stripped |
| BioScraper.AtOnlyEntrySkipped | bio-scraper.py:293-295 | an entry made only of `@` survives the split as "" and `main` skips it |
| BioScraper.HandlesFromListOfJoin | bio-scraper.py:114 | plain usernames joined with commas read back as the same list |
| BioScraper.SafeDebugPrefix | bio-scraper.py:130 | same length, no `/` left, every `/` becomes `_` and every other character stays |
| BioScraper.SafeDebugPrefixIdempotent | bio-scraper.py:130 | the rule leaves its own output unchanged |
| BioScraper.LoginTitleWithin | bio-scraper.py:277 | a title containing "Log in" or "Login" is detected whatever surrounds it |
| Text.Lower | bio-scraper.py:300 | `lower()` keeps the length, leaves no ASCII capital and keeps every other character |
| Text.LowerConcat | bio-scraper.py:300 | lowercasing a concatenation lowercases each part |
| BioScraper.CapitalisedWordMatches | bio-scraper.py:293-302 | with the word list of `main`, a bio containing "Journalist" anywhere matches, whatever the link |
| BioScraper.MatchesWordList | bio-scraper.py:298-302 | a profile matches exactly when some word, lowercased, is a substring of the lowercased bio or the lowercased link |
| BioScraper.FirstRedirectLink | bio-scraper.py:218-227 | the link is "" exactly when no URL starts with "https://l.instagram.com/?u="; otherwise it is the first URL that does |

## Left out

- All Selenium and Playwright calls are left out: navigation, locators, clicks, waits, the scroll script, screenshots and page contents. They are replaced by the abstract inputs described above.
- Harvest.CollectFollowers ignores the outcome of the scroll script, because the source only logs a failure and goes on.
- Sleeps and timeouts are left out; they only affect timing.
- File and environment I/O is left out: cookie files, `credentials.txt`, `input()`, CSV reading and writing, `os.rename`, and writing the debug artifacts. Their contents enter as parameters where a decision depends on them.
- `load_cookies` in followers-scraper.py is left out. It only reads files and the variable and demands a list.
- `login`, `build_driver`, `load_credentials`, `save_credentials` and `prompt_credentials` are left out. Both `main` functions' orchestration, CSV merging and exit codes are left out too.
- Two defects in the bio script's `main` are not modelled. Line 251 rebinds `ensure_descriptions_csv` as a local of itself, which raises UnboundLocalError before anything runs. Line 309 calls `randint`, which is never imported.
- The bio text chosen by `extract_bio_from_profile` (bio-scraper.py:193-215) is left out. It depends only on which page elements exist.
- The `delete_cookie` call before each add is left out; its outcome is ignored.
- Json.ToInt does not model floats: JSON numbers with a fraction are not part of `Value`, so `int(float)` truncation does not appear.
- Json.ParseInt accepts only ASCII digits with an optional sign and surrounding ASCII whitespace. Python's `int()` also accepts underscores between digits and non-ASCII digits.
- Json.Repr quotes strings without escaping. It is `str()` of non-text cookie values, which the model only needs up to that detail.
- Text.IsSpace covers the ASCII part of `str.isspace()` only (space, `\t` to `\r`, `\x1c` to `\x1f`). Python also strips the non-ASCII whitespace, such as `\x85` and `\xa0`. Text.Lower folds ASCII letters only; Python also lowercases non-ASCII letters.
- Anchors.DisplayName splits on `\n` only. `splitlines()` also splits on `\r`, `\r\n`, `\v`, `\f`, `\x1c`, `\x1d`, `\x1e`, `\x85`, `\u2028` and `\u2029`.
- Anchors.UserFromHref does not model Python's `$` matching before a trailing newline. Under that rule `"/name/\n"` yields `name` in Python, where the model yields nothing. (`"/name\n"` yields `"name\n"` in both, since `[^/]+` takes the newline.)
- BioScraper.HandlesFromFile splits on `\n` only. Python's text-mode file iteration also ends lines at `\r`.
- BioScraper.FirstRedirectLink takes the URLs that the `href=` scan would extract as its input; the scan itself is not modelled. A page source that cannot be read corresponds to an empty list, which gives "" in both.
- Harvest.CollectFollowers and FollowersScraper.ScrapeFollowersOf do not model an error from `anchors.count()` (followers-scraper.py:170). That call sits outside every `try`, so such an error escapes the loop, `scrape_followers_of` and `main` (line 233), and the remaining targets are not scraped. In the model, `render` always yields a list of anchors, so every reachable page ends in `Done`.
- Json.Value: an `Obj` stands for the dict `json.loads` returns, so its items have distinct keys (Json.DistinctKeys). JSON text with a repeated key is outside the model. On such items Json.DictOf keeps the last value, while BioScraper.FirstListMember reads the items as listed.

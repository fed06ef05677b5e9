# bookmeter_scraper — a Dafny model of the scraper core

`BookmeterScraper::Scraper` reads a user's pages on the book-logging site
Bookmeter. Listing pages hold fixed numbers of slots: 40 book slots per
page, or 20 user slots. Each slot is filled or empty. For each filled book
slot, the scraper reads the book's detail page to get its name, author,
image, read date and any re-read dates.

This project models that core:

- the deduplicating `Books` collection;
- the slot scans `get_book_structs`, `get_target_books`,
  `get_last_book_date` and `get_user_structs`;
- the page loops `get_books`, `get_followers` and `get_followings`;
- the month-window walk `get_read_books`;
- the per-instance detail-page cache `get_book_page`;
- the mapping of a profile's Japanese labels to its attributes.

Files:

- `records.dfy`: the value records, plus the failures that the Ruby code
  raises.
- `books.dfy`: `Books`. It is a class whose `Concat` is proved against the
  function `DedupAppend`, and the lemmas about `DedupAppend` state what
  `concat` promises.
- `listing.dfy`: the slot scans as functions on one page, and the page
  concatenations.
- `month_window.dfy`: the decision table of `get_read_books` and the walk
  as a function, proved sound, complete on a listing sorted newest first,
  and stopping early.
- `profile.dfy`: the profile attribute mapping.
- `scraper.dfy`: the `Scraper` class. It holds the cache as a map field,
  and its loops are methods, each proved equal to the functions above.

The remote site is the constant `site` of a `Scraper`. It gives the detail
page stored at each book path. A ghost request log records every path the
cache fetched. The class invariant says three things:

- each cached page is what the site serves;
- no path was fetched twice;
- the cached paths are exactly the fetched ones.

Listing pages are parameters: they stand for what the listing scrapers
return. Errors that the Ruby code raises become `Err` results:

- a filled slot without a read date: `Time.local` on nil parts;
- a page with no filled slot: `get_last_book_date` then returns the loop's
  receiver, `40`, and `40['year']` raises;
- a user link without a `/u/<digits>` suffix: `nil[1]`;
- a profile page without its title heading.

## Model

| member | source | states |
|---|---|---|
| BookCollection.DedupAppend | lib/bookmeter_scraper/scraper.rb:50-55 | `concat` only appends: the old contents stay in front, unchanged, and at most the batch's length is added |
| BookCollection.DedupAppendIdentities | lib/bookmeter_scraper/scraper.rb:50-55 | after `concat` an identity (name, author) is present iff it was present before or occurs in the batch; every element comes from the old contents or the batch |
| BookCollection.DedupAppendKeepsFirstNew | lib/bookmeter_scraper/scraper.rb:51-53 | `concat` appends exactly the candidates whose identity is neither present nor earlier in the batch, in batch order, each with its own read dates |
| BookCollection.DedupAppendDistinct | lib/bookmeter_scraper/scraper.rb:50-55 | if no two elements shared (name, author) before `concat`, none do after |
| BookCollection.DedupAppendAllPresent | lib/bookmeter_scraper/scraper.rb:51-53 | a batch whose identities are all present leaves the collection unchanged |
| BookCollection.DedupAppendIdempotent | lib/bookmeter_scraper/scraper.rb:50-55 | concatenating the same batch twice equals concatenating it once |
| BookCollection.Books.constructor | lib/bookmeter_scraper/scraper.rb:48 | a new collection is empty |
| BookCollection.Books.Concat | lib/bookmeter_scraper/scraper.rb:50-55 | the loop with `next` leaves the contents equal to `DedupAppend` of the old contents and the batch |
| BookCollection.Books.Append | lib/bookmeter_scraper/scraper.rb:44-46 | `<<` followed by `flatten!` appends every element of the batch, with no identity check |
| BookCollection.Books.ToA | lib/bookmeter_scraper/scraper.rb:57 | returns the contents |
| Listing.FilledPrefix | lib/bookmeter_scraper/scraper.rb:75-76 | the scan that breaks on the first empty slot stops after the filled prefix: all earlier slots are filled, and the stopping slot is empty or past the end |
| Listing.LastFilled | lib/bookmeter_scraper/scraper.rb:181-186 | the downward scan finds the highest-indexed filled slot, with every later slot empty; it finds none iff every slot is empty |
| Listing.BookStructsPrefix | lib/bookmeter_scraper/scraper.rb:72-107 | `get_book_structs` yields one book per slot of the filled prefix, in slot order, and nothing from the first empty slot on; each book carries its read date when present, then every re-read date, and `ROOT_URI` plus the path |
| Listing.BooksOfPagesAppend | lib/bookmeter_scraper/scraper.rb:145-153 | the books of a run of pages are the concatenation of the books of its parts, in page order, with no deduplication |
| Listing.BooksOfPagesBound | lib/bookmeter_scraper/scraper.rb:145-153 | each 40-slot page contributes at most 40 books |
| Listing.ReadYmsSpec | lib/bookmeter_scraper/scraper.rb:195-208 | a month is among `read_yms` iff it is the read date's month or some re-read date's month |
| Listing.TargetBooksExact | lib/bookmeter_scraper/scraper.rb:189-226 | a successful `get_target_books` keeps the book of a filled slot iff the target is one of its read months; the kept book has the read date followed by every re-read date; empty slots are skipped and the scan goes on |
| Listing.TargetBooksFails | lib/bookmeter_scraper/scraper.rb:192-197 | `get_target_books` fails iff some filled slot's detail page has no read date, and the failure names the first such slot |
| Listing.TargetBooksFailurePersists | lib/bookmeter_scraper/scraper.rb:192-197 | once a prefix of the slots fails, the whole page fails the same way |
| Listing.UserIdOfSpec | lib/bookmeter_scraper/scraper.rb:137 | the id capture succeeds iff the link ends in `/u/` followed by a non-empty run of digits, and yields that run |
| Listing.UserStructsPrefix | lib/bookmeter_scraper/scraper.rb:130-143 | a successful `get_user_structs` yields one user per slot of the named prefix, in slot order, and stops at the first empty name; each user has a digits-only id and the URI `ROOT_URI/u/<id>` |
| Listing.NamedPrefix | lib/bookmeter_scraper/scraper.rb:133-134 | the user scan that breaks on the first empty name stops after the named prefix: all earlier slots carry a name, and the stopping slot has none or is past the end |
| Listing.UserStructsFails | lib/bookmeter_scraper/scraper.rb:130-143 | `get_user_structs` succeeds iff every slot of the named prefix has a link with a user id, and then yields exactly one user per such slot; a failure is `MalformedUserLink` of the first rejected link |
| Listing.UsersOfPagesAppend | lib/bookmeter_scraper/scraper.rb:120-128 | the users of a run of pages are those of its parts joined in page order, with no deduplication; the first failing page fails the whole |
| MonthWindow.Decide | lib/bookmeter_scraper/scraper.rb:164-176 | each page takes exactly one action. Skip iff target < last. Stop iff first < target and target is not older than last. Extract-and-stop iff last < target <= first. Extract-and-continue iff target == last and target <= first. The final fall-through is never reached |
| MonthWindow.PageBounds | lib/bookmeter_scraper/scraper.rb:158-162 | the bounds exist iff the first slot has a read date, some slot is filled, and the last filled slot has a read date; they are those dates' months; a missing first date is reported first, then a page with no filled slot |
| MonthWindow.PageStep | lib/bookmeter_scraper/scraper.rb:158-176 | one page fails iff its bounds fail or it is extracted and its target books fail, with that failure; Skip and Stop leave the books unchanged, the extracting actions merge the target books with `concat`; the walk goes on (`next` or falling through) iff the action is Skip or extract-and-continue |
| MonthWindow.ReadBooksFromStep | lib/bookmeter_scraper/scraper.rb:157-177 | the walk is the first page's step, followed by the walk over the remaining pages when that step goes on |
| MonthWindow.ReadBooksStopsAtOlderPage | lib/bookmeter_scraper/scraper.rb:164-175 | the walk never examines a page after one whose last filled slot is older than the target |
| MonthWindow.ReadBooksKeepsAcc | lib/bookmeter_scraper/scraper.rb:155-179 | the walk only appends to `result`, and never gives two collected books the same (name, author) |
| MonthWindow.ReadBooksSound | lib/bookmeter_scraper/scraper.rb:155-179 | every collected book is the `get_target_books` record of a filled slot, read in the target month, on a page the walk examined |
| MonthWindow.ExtractedBooksFromPage | lib/bookmeter_scraper/scraper.rb:167-173 | what merging a page's target books adds is the record of one of its filled slots read in the target month |
| MonthWindow.FirstPageTargetsKept | lib/bookmeter_scraper/scraper.rb:164-175 | on a listing sorted newest first by read date, a successful walk holds the identity of every first-page book read in the target month |
| MonthWindow.ReadBooksComplete | lib/bookmeter_scraper/scraper.rb:155-179 | on a listing sorted newest first with every slot dated, the walk succeeds and holds the identity of every book whose read date falls in the target month |
| MonthWindow.WalkStopsInsideBracketingPage | lib/bookmeter_scraper/scraper.rb:164-171 | pages May–March then February–January with target April: the one April book is taken and only the first page is examined |
| MonthWindow.WalkMissesBookAfterRereadSlot | lib/bookmeter_scraper/scraper.rb:158-171 | a listing ordered by latest read date, where a re-read book last read in June 2023 but first read in January 2022 ends page one: the walk extracts page one and stops, so a book first read in June 2023 on page two is not collected |
| MonthWindow.SplitListingSorted | lib/bookmeter_scraper/scraper.rb:155-179 | the two-page listing used by `WalkDependsOnPageSplit` is well formed and sorted newest first by read date |
| MonthWindow.SplitListingWalk | lib/bookmeter_scraper/scraper.rb:164-175 | August–July then a page holding only a book read in January and re-read in June, target June: page one is skipped and page two stops the walk with nothing collected |
| MonthWindow.UnsplitListingWalk | lib/bookmeter_scraper/scraper.rb:164-171 | the same three books on one page, target June: the page brackets June and the re-read book is collected |
| MonthWindow.WalkDependsOnPageSplit | lib/bookmeter_scraper/scraper.rb:155-179 | on a well-formed listing sorted newest first, the walk's result depends on where the page break falls |
| ProfileMapping.JpAttributeNamesDistinct | lib/bookmeter_scraper/scraper.rb:21-35 | no two attributes share a Japanese label |
| ProfileMapping.LookupSpec | lib/bookmeter_scraper/scraper.rb:238 | a label's value is found iff the label occurs, and it is the value paired with its last occurrence |
| ProfileMapping.ProfileOf | lib/bookmeter_scraper/scraper.rb:236-244 | the profile exists iff the page has the title heading; it has 14 fields, the name is the title text, and each other attribute holds the value of its Japanese label |
| ProfileMapping.MissingLabelIsAbsent | lib/bookmeter_scraper/scraper.rb:239-241 | an attribute whose label is absent is nil in the profile, not an error |
| BookmeterScraper.Scraper.constructor | lib/bookmeter_scraper/scraper.rb:67-70 | a new scraper has an empty cache and has fetched nothing |
| BookmeterScraper.Scraper.GetBookPage | lib/bookmeter_scraper/scraper.rb:247-250 | returns the site's page for the path. The first request fetches and stores it. A later request leaves the cache and the request log unchanged, so each path is fetched at most once |
| BookmeterScraper.Scraper.GetListedBook | lib/bookmeter_scraper/scraper.rb:78-103 | the loop body of `get_book_structs` builds `ListedBook` of the slot's detail page, fetching at most that one path |
| BookmeterScraper.Scraper.GetBookStructs | lib/bookmeter_scraper/scraper.rb:72-107 | returns `BookStructs` of the page, at most 40 books, and fetches only paths of that page |
| BookmeterScraper.Scraper.GetLastBookDate | lib/bookmeter_scraper/scraper.rb:181-186 | returns the read date of the last filled slot, or nothing iff every slot is empty; fetches nothing new beyond the slots of the page |
| BookmeterScraper.Scraper.GetTargetBooks | lib/bookmeter_scraper/scraper.rb:189-226 | returns `TargetBooks` of the page, including its failure |
| BookmeterScraper.Scraper.GetPageBounds | lib/bookmeter_scraper/scraper.rb:158-162 | returns `PageBounds` of the page |
| BookmeterScraper.Scraper.VisitPage | lib/bookmeter_scraper/scraper.rb:158-176 | one pass of the loop: `result` becomes the books of `PageStep`, and the return value says whether the walk goes on |
| BookmeterScraper.Scraper.GetReadBooks | lib/bookmeter_scraper/scraper.rb:155-179 | returns a fresh collection equal to the walk `ReadBooks`, or its failure; only paths on the pages the walk examined are fetched |
| BookmeterScraper.Scraper.GetBooks | lib/bookmeter_scraper/scraper.rb:145-153 | returns the concatenation of every page's `get_book_structs`, in page order, undeduplicated, at most 40 per page |
| BookmeterScraper.Scraper.GetUserStructs | lib/bookmeter_scraper/scraper.rb:130-143 | returns `UserStructs` of the page, including the failure on a malformed link, with at most 20 users |
| BookmeterScraper.Scraper.CollectUsers | lib/bookmeter_scraper/scraper.rb:123-126 | returns the users of every page in page order, with no deduplication |
| BookmeterScraper.Scraper.GetFollowers | lib/bookmeter_scraper/scraper.rb:120-128 | returns the users of the followers pages in page order |
| BookmeterScraper.Scraper.GetFollowings | lib/bookmeter_scraper/scraper.rb:109-118 | returns the users of the logged-in user's own followings pages when the id is that user's, otherwise those of the public followings listing |

## Left out

- HTTP and the session: `agent.get`, `logged_in?` and `log_in_user_id`. The site is the function `site`, and the logged-in id is a parameter of `GetFollowings`.
- The listing scrapers: `scrape_book_pages`, `scrape_followings_page`, `scrape_users_listing_page` and `scrape_others_followings_page`. They work through the Yasuri DSL and XPath. Their pages, and the pagination inside `Yasuri.pages_root`, are parameters.
  - `pages_root` collects every listing page before the walk starts. So `get_read_books`'s early stop saves detail-page requests, not listing requests.
- The argument checks that raise before any page is read: `USER_ID_REGEX`, a missing agent, and a URI method the module does not define. Their error paths are not modelled. The constants `ROOT_URI` and `USER_ID_REGEX` are defined in `bookmeter_scraper/bookmeter`, which is not part of this model; `ROOT_URI` is an unspecified constant.
- `get_read_date`, `get_reread_date`, `get_book_name`, `get_book_author` and `get_book_image_uri` are XPath extractions from one detail page. They are folded into `Detail`, the record `site` returns for a path. Each reads through `get_book_page`, so the cache behaviour is the same.
- `Time.local`: no time zones and no normalisation of out-of-range parts. A date is a (year, month, day) triple, and months compare by (year, month).
- GetUserStructs: the regular expression's `$` also matches before a line break inside the link. The model matches only at the end of the string.
- GetBookPage: the Ruby code fetches again when the cached value is falsy. A fetched page is never nil, so the model always treats a stored path as cached.
- Books: the `[]`, `[]=` and `each` delegators are not modelled. They are plain `Array` access.
- `get_books` uses `<<` and `flatten!`, not `concat`, so its books are not deduplicated. The model follows the code.
- ReadBooksComplete: it assumes `NewestFirst`, which orders the listing by each book's first read date, and it covers only books whose first read date falls in the target month. `get_read_books` bounds each page by the first read dates of its first and last filled slots. When the listing is ordered by the latest read date instead, a re-read book can end a page with an old first read date. That page then brackets the target and stops the walk, and a book read in the target month on a later page is missed (`WalkMissesBookAfterRereadSlot`). A book read in the target month only as a re-read is collected only if its page is extracted, so the result also depends on where the page breaks fall (`WalkDependsOnPageSplit`).

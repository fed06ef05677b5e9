/** `BookmeterScraper::Scraper`: the object that holds the agent and the
    per-instance cache of book detail pages, and runs the listing loops.
    Listing pages arrive as parameters (what `scrape_book_pages` and the
    user-listing scrapers return); detail pages are read from `site`
    through the cache. */
module BookmeterScraper {
  import opened Records
  import opened Listing
  import opened BookCollection
  import opened MonthWindow

  predicate NoDuplicates(s: seq<string>) {
    forall i, j :: 0 <= i < j < |s| ==> s[i] != s[j]
  }

  /** The links in the slots of one page, the empty one included. */
  function SlotLinks(links: seq<string>): set<string> {
    set i | 0 <= i < |links| :: links[i]
  }

  /** Every slot link of the given pages. */
  function LinksOf(pages: seq<seq<string>>): set<string>
    decreases |pages|
  {
    if pages == [] then {} else LinksOf(pages[..|pages| - 1]) + SlotLinks(pages[|pages| - 1])
  }

  /** One more page adds the links of its slots. */
  lemma LinksOfSnoc(pages: seq<seq<string>>, i: nat)
    requires i < |pages|
    ensures LinksOf(pages[..i + 1]) == LinksOf(pages[..i]) + SlotLinks(pages[i])
  {
    assert pages[..i + 1][..i] == pages[..i];
  }

  class Scraper {
    /** The site as the agent sees it: the detail page at each book path. */
    const site: string -> Detail
    /** `@book_pages`: the detail pages fetched so far, by book path. */
    var bookPages: map<string, Detail>
    /** The book paths requested from the site so far, in request order. */
    ghost var fetchLog: seq<string>

    /** The cache holds what the site returns, each path was requested at
        most once, and exactly the cached paths were requested. */
    ghost predicate Valid()
      reads this
    {
      && (forall u :: u in bookPages ==> bookPages[u] == site(u))
      && NoDuplicates(fetchLog)
      && (forall u :: u in bookPages <==> u in fetchLog)
    }

    /** `Scraper.new(agent)`: an empty cache. */
    constructor (site: string -> Detail)
      ensures Valid()
      ensures this.site == site && bookPages == map[] && fetchLog == []
    {
      this.site := site;
      bookPages := map[];
      fetchLog := [];
    }

    /** `get_book_page`: the first request for a path fetches it and stores
        it; every later one returns the stored page and changes nothing. */
    method GetBookPage(uri: string) returns (page: Detail)
      requires Valid()
      modifies this
      ensures Valid()
      ensures page == site(uri)
      ensures uri in old(bookPages) ==> bookPages == old(bookPages) && fetchLog == old(fetchLog)
      ensures uri !in old(bookPages) ==>
        bookPages == old(bookPages)[uri := page] && fetchLog == old(fetchLog) + [uri]
    {
      if uri !in bookPages {
        var fetched := site(uri);
        bookPages := bookPages[uri := fetched];
        fetchLog := fetchLog + [uri];
      }
      page := bookPages[uri];
    }

    /** The book `get_book_structs` builds for one filled slot (the body of
        its loop). */
    method GetListedBook(link: string) returns (book: Book)
      requires Valid()
      modifies this
      ensures Valid()
      ensures book == ListedBook(link, site(link))
      ensures old(bookPages).Keys <= bookPages.Keys <= old(bookPages).Keys + {link}
    {
      var page := GetBookPage(link);
      var readDates: seq<Date> := [];
      if page.readDate.Some? {
        readDates := readDates + [page.readDate.value];
      }
      ghost var primary := readDates;
      for k := 0 to |page.rereadDates|
        invariant readDates == primary + page.rereadDates[..k]
      {
        readDates := readDates + [page.rereadDates[k]];
      }
      assert page.rereadDates[..|page.rereadDates|] == page.rereadDates;
      book := Book(page.name, page.author, readDates, RootUri + link, page.imageUri);
    }

    /** `get_book_structs`: one book per slot, stopping at the first empty
        slot; only the slots read are fetched. */
    method GetBookStructs(links: seq<string>) returns (books: seq<Book>)
      requires Valid() && |links| == NumBooksPerPage
      modifies this
      ensures Valid()
      ensures books == BookStructs(links, site)
      ensures |books| <= NumBooksPerPage
      ensures old(bookPages).Keys <= bookPages.Keys <= old(bookPages).Keys + SlotLinks(links)
    {
      BookStructsPrefix(links, site);
      books := [];
      for i := 0 to NumBooksPerPage
        invariant Valid()
        invariant BookStructs(links, site) == books + BookStructs(links[i..], site)
        invariant old(bookPages).Keys <= bookPages.Keys <= old(bookPages).Keys + SlotLinks(links)
      {
        if links[i] == "" {
          assert BookStructs(links[i..], site) == [];
          break;
        }
        var book := GetListedBook(links[i]);
        assert links[i..][1..] == links[i + 1..];
        books := books + [book];
      }
      assert links[NumBooksPerPage..] == [];
    }

    /** `get_last_book_date`: the read date of the highest-indexed filled
        slot, scanning down from the last slot; `None` when every slot is
        empty (the source then returns the loop's receiver, not a date). */
    method GetLastBookDate(links: seq<string>) returns (r: Option<Option<Date>>)
      requires Valid() && |links| == NumBooksPerPage
      modifies this
      ensures Valid()
      ensures r.None? <==> LastFilled(links).None?
      ensures r.Some? ==> r.value == site(links[LastFilled(links).value]).readDate
      ensures old(bookPages).Keys <= bookPages.Keys <= old(bookPages).Keys + SlotLinks(links)
    {
      var i := NumBooksPerPage;
      while i > 0
        invariant 0 <= i <= |links|
        invariant forall j :: i <= j < |links| ==> links[j] == ""
        invariant bookPages == old(bookPages) && fetchLog == old(fetchLog)
      {
        i := i - 1;
        if links[i] == "" {
          continue;
        }
        var page := GetBookPage(links[i]);
        return Some(page.readDate);
      }
      return None;
    }

    /** `get_target_books`: the books of every filled slot read in
        `target`, each with all of its read dates; a filled slot whose
        detail page has no read date makes it fail. */
    method GetTargetBooks(target: YearMonth, links: seq<string>) returns (r: Result<seq<Book>>)
      requires Valid() && |links| == NumBooksPerPage
      modifies this
      ensures Valid()
      ensures r == TargetBooks(target, links, site)
      ensures old(bookPages).Keys <= bookPages.Keys <= old(bookPages).Keys + SlotLinks(links)
    {
      var targetBooks := new Books();
      for i := 0 to NumBooksPerPage
        invariant Valid()
        invariant TargetBooks(target, links[..i], site) == Ok(targetBooks.books)
        invariant old(bookPages).Keys <= bookPages.Keys <= old(bookPages).Keys + SlotLinks(links)
      {
        assert links[..i + 1][..i] == links[..i];
        if links[i] == "" {
          continue;
        }
        var page := GetBookPage(links[i]);
        if page.readDate.None? {
          TargetBooksFailurePersists(target, links, i + 1, site);
          return Err(MissingReadDate(links[i]));
        }
        var readDate := page.readDate.value;
        var readYms := [readDate.Ym()];
        var readDates := [readDate];
        for k := 0 to |page.rereadDates|
          invariant readYms == ReadYms(page)[..k + 1]
        {
          readYms := readYms + [page.rereadDates[k].Ym()];
        }
        assert readYms == ReadYms(page);
        if target !in readYms {
          continue;
        }
        for k := 0 to |page.rereadDates|
          invariant readDates == [readDate] + page.rereadDates[..k]
        {
          readDates := readDates + [page.rereadDates[k]];
        }
        var book := Book(page.name, page.author, readDates, RootUri + links[i], page.imageUri);
        assert book == TargetBook(links[i], page);
        targetBooks.Append([book]);
      }
      assert links[..NumBooksPerPage] == links;
      r := Ok(targetBooks.books);
    }

    /** The two months `get_read_books` reads from a page: the first
        slot's read date, then the last filled slot's (through
        `get_last_book_date`). */
    method GetPageBounds(links: seq<string>) returns (r: Result<Bounds>)
      requires Valid() && |links| == NumBooksPerPage
      modifies this
      ensures Valid()
      ensures r == PageBounds(links, site)
      ensures old(bookPages).Keys <= bookPages.Keys <= old(bookPages).Keys + SlotLinks(links)
    {
      var firstPage := GetBookPage(links[0]);
      var lastDate := GetLastBookDate(links);
      if firstPage.readDate.None? {
        return Err(MissingReadDate(links[0]));
      }
      if lastDate.None? {
        return Err(NoFilledSlot);
      }
      if lastDate.value.None? {
        return Err(MissingReadDate(links[LastFilled(links).value]));
      }
      r := Ok(Bounds(firstPage.readDate.value.Ym(), lastDate.value.value.Ym()));
    }

    /** The body of the `get_read_books` loop for one page: its bounds, its
        action, and for the extracting actions its target books merged into
        `result`; `Ok(true)` when the walk goes on to the next page. */
    method VisitPage(target: YearMonth, links: seq<string>, result: Books) returns (r: Result<bool>)
      requires Valid() && |links| == NumBooksPerPage
      modifies this, result
      ensures Valid()
      ensures r.Ok? <==> PageStep(target, links, site, old(result.books)).Ok?
      ensures r.Ok? ==> PageStep(target, links, site, old(result.books)).value == Step(result.books, r.value)
      ensures r.Err? ==> r.error == PageStep(target, links, site, old(result.books)).error
      ensures old(bookPages).Keys <= bookPages.Keys <= old(bookPages).Keys + SlotLinks(links)
    {
      var bounds := GetPageBounds(links);
      if bounds.Err? {
        return Err(bounds.error);
      }
      var action := Decide(target, bounds.value.first, bounds.value.last);
      if action == Skip {
        return Ok(true);
      }
      if action == Stop {
        return Ok(false);
      }
      var targetBooks := GetTargetBooks(target, links);
      if targetBooks.Err? {
        return Err(targetBooks.error);
      }
      result.Concat(targetBooks.value);
      r := Ok(action == ExtractAndContinue);
    }

    /** `get_read_books`: walk the pages newest first, deciding each page
        from its first and last read months; the collected books are
        deduplicated by (name, author). Detail pages are fetched only for
        slots of the pages the walk examines. */
    method GetReadBooks(target: YearMonth, pages: seq<seq<string>>) returns (r: Result<Books>)
      requires Valid()
      requires forall p :: p in pages ==> |p| == NumBooksPerPage
      modifies this
      ensures Valid()
      ensures NonEmptyPages(pages)
      ensures r.Ok? <==> ReadBooks(target, pages, site).books.Ok?
      ensures r.Ok? ==> fresh(r.value) && r.value.books == ReadBooks(target, pages, site).books.value
      ensures r.Err? ==> r.error == ReadBooks(target, pages, site).books.error
      ensures old(bookPages).Keys <= bookPages.Keys
      ensures bookPages.Keys <= old(bookPages).Keys + LinksOf(pages[..ReadBooks(target, pages, site).visited])
    {
      var result := new Books();
      var i := 0;
      var stopped := false;
      while i < |pages| && !stopped
        invariant 0 <= i <= |pages|
        invariant Valid() && fresh(result)
        invariant stopped ==> ReadBooks(target, pages, site) == Scan(Ok(result.books), i)
        invariant !stopped ==> ReadBooks(target, pages, site) == Scan(
          ReadBooksFrom(target, pages[i..], site, result.books).books,
          i + ReadBooksFrom(target, pages[i..], site, result.books).visited)
        invariant old(bookPages).Keys <= bookPages.Keys <= old(bookPages).Keys + LinksOf(pages[..i])
      {
        var links := pages[i];
        assert links in pages;
        LinksOfSnoc(pages, i);
        assert pages[i..][0] == links && pages[i..][1..] == pages[i + 1..];
        ghost var acc := result.books;
        ReadBooksFromStep(target, pages[i..], site, acc);
        var step := VisitPage(target, links, result);
        if step.Err? {
          return Err(step.error);
        }
        i, stopped := i + 1, !step.value;
      }
      if !stopped {
        assert pages[i..] == [];
      }
      r := Ok(result);
    }

    /** `get_books`: the books of every page, in page order, appended with
        `<<` and `flatten!`, so without deduplication. */
    method GetBooks(pages: seq<seq<string>>) returns (books: Books)
      requires Valid()
      requires forall p :: p in pages ==> |p| == NumBooksPerPage
      modifies this
      ensures Valid()
      ensures fresh(books) && books.books == BooksOfPages(pages, site)
      ensures |books.books| <= NumBooksPerPage * |pages|
      ensures old(bookPages).Keys <= bookPages.Keys <= old(bookPages).Keys + LinksOf(pages)
    {
      books := new Books();
      for i := 0 to |pages|
        invariant Valid() && fresh(books)
        invariant books.books == BooksOfPages(pages[..i], site)
        invariant old(bookPages).Keys <= bookPages.Keys <= old(bookPages).Keys + LinksOf(pages[..i])
      {
        assert pages[i] in pages;
        assert pages[..i + 1][..i] == pages[..i] && pages[..i + 1][i] == pages[i];
        var structs := GetBookStructs(pages[i]);
        books.Append(structs);
      }
      assert pages[..|pages|] == pages;
      BooksOfPagesBound(pages, site);
    }

    /** `get_user_structs`: one user per slot, stopping at the first slot
        with an empty name; a link without a `/u/<digits>` id fails. */
    method GetUserStructs(slots: seq<UserSlot>) returns (r: Result<seq<User>>)
      requires |slots| == NumUsersPerPage
      ensures r == UserStructs(slots)
      ensures r.Ok? ==> |r.value| <= NumUsersPerPage
    {
      var users: seq<User> := [];
      PrependLaws([], [], UserStructs(slots));
      for i := 0 to NumUsersPerPage
        invariant UserStructs(slots) == Prepend(users, UserStructs(slots[i..]))
        invariant |users| == i
      {
        assert slots[i..][0] == slots[i] && slots[i..][1..] == slots[i + 1..];
        if slots[i].name == "" {
          assert UserStructs(slots[i..]) == Ok([]);
          PrependLaws(users, [], Ok([]));
          assert users + [] == users;
          return Ok(users);
        }
        var id := UserIdOf(slots[i].link);
        if id.None? {
          return Err(MalformedUserLink(slots[i].link));
        }
        var user := User(slots[i].name, id.value, RootUri + "/u/" + id.value);
        assert UserStructs(slots[i..]) == Prepend([user], UserStructs(slots[i + 1..]));
        PrependLaws(users, [user], UserStructs(slots[i + 1..]));
        users := users + [user];
      }
      assert slots[NumUsersPerPage..] == [];
      assert UserStructs(slots[NumUsersPerPage..]) == Ok([]);
      assert users + [] == users;
      r := Ok(users);
    }

    /** The loop shared by `get_followers` and `get_followings`: the users
        of every page, in page order, with no deduplication. */
    method CollectUsers(pages: seq<seq<UserSlot>>) returns (r: Result<seq<User>>)
      requires forall p :: p in pages ==> |p| == NumUsersPerPage
      ensures r == UsersOfPages(pages)
    {
      var users: seq<User> := [];
      for i := 0 to |pages|
        invariant UsersOfPages(pages[..i]) == Ok(users)
      {
        assert pages[i] in pages;
        assert pages[..i + 1][..i] == pages[..i] && pages[..i + 1][i] == pages[i];
        var structs := GetUserStructs(pages[i]);
        if structs.Err? {
          UsersOfPagesAppend(pages[..i + 1], pages[i + 1..]);
          assert pages[..i + 1] + pages[i + 1..] == pages;
          return Err(structs.error);
        }
        users := users + structs.value;
      }
      assert pages[..|pages|] == pages;
      r := Ok(users);
    }

    /** `get_followers` over the pages of the followers listing. */
    method GetFollowers(pages: seq<seq<UserSlot>>) returns (r: Result<seq<User>>)
      requires forall p :: p in pages ==> |p| == NumUsersPerPage
      ensures r == UsersOfPages(pages)
    {
      r := CollectUsers(pages);
    }

    /** `get_followings`: the logged-in user's own followings page when
        `userId` is that user, otherwise the public followings listing. */
    method GetFollowings(userId: string, logInUserId: string,
                         ownPages: seq<seq<UserSlot>>, othersPages: seq<seq<UserSlot>>)
      returns (r: Result<seq<User>>)
      requires forall p :: p in ownPages ==> |p| == NumUsersPerPage
      requires forall p :: p in othersPages ==> |p| == NumUsersPerPage
      ensures r == UsersOfPages(if userId == logInUserId then ownPages else othersPages)
    {
      var pages := if userId == logInUserId then ownPages else othersPages;
      r := CollectUsers(pages);
    }
  }
}

/** `get_read_books`: walk the read-books listing, newest page first, and
    collect the books read in one target month, deciding page by page from
    the month of its first slot and of its last filled slot whether to skip
    it, take from it, and go on or stop. */
module MonthWindow {
  import opened Records
  import opened Listing
  import opened BookCollection

  /** What one page of the walk does. */
  datatype Action = Skip | ExtractAndStop | ExtractAndContinue | Stop

  /** The `if`/`elsif` chain of `get_read_books`, in its order. The four
      `ensures` show that every page takes exactly one of the four actions
      and that the final fall-through is never reached. */
  function Decide(target: YearMonth, first: YearMonth, last: YearMonth): (a: Action)
    ensures a == Skip <==> YmLt(target, last)
    ensures a == Stop <==> YmLt(first, target) && !YmLt(target, last)
    ensures a == ExtractAndStop <==> YmLt(last, target) && YmLe(target, first)
    ensures a == ExtractAndContinue <==> target == last && YmLe(target, first)
  {
    if YmLt(target, last) then Skip
    else if target == first && YmLt(last, target) then ExtractAndStop
    else if YmLt(target, first) && YmLt(last, target) then ExtractAndStop
    else if YmLe(target, first) && YmLe(last, target) then ExtractAndContinue
    else if YmLt(first, target) then Stop
    else Skip // no branch taken: the block ends and the next page follows
  }

  /** The month of the first slot's read date and of the last filled slot's. */
  datatype Bounds = Bounds(first: YearMonth, last: YearMonth)

  /** The two months `get_read_books` compares the target with. The first
      slot is read even when empty. A missing read date, or a page with no
      filled slot (where `get_last_book_date` returns the loop's receiver
      instead of a date), makes the source raise. */
  function PageBounds(links: seq<string>, site: string -> Detail): (r: Result<Bounds>)
    requires |links| > 0
    ensures r.Ok? <==> (site(links[0]).readDate.Some? && LastFilled(links).Some?
      && site(links[LastFilled(links).value]).readDate.Some?)
    ensures r.Ok? ==> (r.value.first == site(links[0]).readDate.value.Ym()
      && r.value.last == site(links[LastFilled(links).value]).readDate.value.Ym())
    ensures site(links[0]).readDate.None? ==> r == Err(MissingReadDate(links[0]))
    ensures site(links[0]).readDate.Some? && LastFilled(links).None? ==> r == Err(NoFilledSlot)
  {
    var first := site(links[0]).readDate;
    var lastSlot := LastFilled(links);
    if first.None? then Err(MissingReadDate(links[0]))
    else if lastSlot.None? then Err(NoFilledSlot)
    else
      var last := site(links[lastSlot.value]).readDate;
      if last.None? then Err(MissingReadDate(links[lastSlot.value]))
      else Ok(Bounds(first.value.Ym(), last.value.Ym()))
  }

  /** Outcome of the walk: the collected books (or the failure), and how
      many pages were examined. */
  datatype Scan = Scan(books: Result<seq<Book>>, visited: nat)

  predicate NonEmptyPages(pages: seq<seq<string>>) {
    forall p :: p in pages ==> |p| > 0
  }

  /** The walk over `pages` starting from collected books `acc`. */
  function ReadBooksFrom(target: YearMonth, pages: seq<seq<string>>, site: string -> Detail, acc: seq<Book>): (s: Scan)
    requires NonEmptyPages(pages)
    ensures s.visited <= |pages|
    ensures pages != [] ==> s.visited > 0
    decreases |pages|
  {
    if pages == [] then Scan(Ok(acc), 0)
    else match PageBounds(pages[0], site)
      case Err(e) => Scan(Err(e), 1)
      case Ok(b) =>
        match Decide(target, b.first, b.last)
        case Skip =>
          var s := ReadBooksFrom(target, pages[1..], site, acc);
          Scan(s.books, s.visited + 1)
        case Stop => Scan(Ok(acc), 1)
        case ExtractAndStop =>
          (match TargetBooks(target, pages[0], site)
           case Err(e) => Scan(Err(e), 1)
           case Ok(tb) => Scan(Ok(DedupAppend(acc, tb)), 1))
        case ExtractAndContinue =>
          match TargetBooks(target, pages[0], site)
          case Err(e) => Scan(Err(e), 1)
          case Ok(tb) =>
            var s := ReadBooksFrom(target, pages[1..], site, DedupAppend(acc, tb));
            Scan(s.books, s.visited + 1)
  }

  /** What one page does to the collected books, and whether the walk goes
      on to the next page. */
  datatype Step = Step(books: seq<Book>, more: bool)

  /** One page of the walk on its own: its bounds, its action, and for the
      two extracting actions its target books merged with `concat`. */
  function PageStep(target: YearMonth, links: seq<string>, site: string -> Detail, acc: seq<Book>): (r: Result<Step>)
    requires |links| > 0
    ensures r.Ok? ==> PageBounds(links, site).Ok?
    ensures PageBounds(links, site).Err? ==> r == Err(PageBounds(links, site).error)
    ensures PageBounds(links, site).Ok? ==>
      var a := Decide(target, PageBounds(links, site).value.first, PageBounds(links, site).value.last);
      && (r.Ok? ==> r.value.more == (a == Skip || a == ExtractAndContinue))
      && (a == Skip || a == Stop ==> r.Ok? && r.value.books == acc)
      && (a == ExtractAndStop || a == ExtractAndContinue ==>
            (r.Ok? <==> TargetBooks(target, links, site).Ok?)
            && (r.Ok? ==> r.value.books == DedupAppend(acc, TargetBooks(target, links, site).value))
            && (r.Err? ==> r.error == TargetBooks(target, links, site).error))
  {
    match PageBounds(links, site)
    case Err(e) => Err(e)
    case Ok(b) =>
      match Decide(target, b.first, b.last)
      case Skip => Ok(Step(acc, true))
      case Stop => Ok(Step(acc, false))
      case ExtractAndStop =>
        (match TargetBooks(target, links, site)
         case Err(e) => Err(e)
         case Ok(tb) => Ok(Step(DedupAppend(acc, tb), false)))
      case ExtractAndContinue =>
        match TargetBooks(target, links, site)
        case Err(e) => Err(e)
        case Ok(tb) => Ok(Step(DedupAppend(acc, tb), true))
  }

  /** The walk is its first page's step followed, when that step goes on,
      by the walk over the remaining pages. */
  lemma ReadBooksFromStep(target: YearMonth, pages: seq<seq<string>>, site: string -> Detail, acc: seq<Book>)
    requires NonEmptyPages(pages) && pages != []
    ensures var s := ReadBooksFrom(target, pages, site, acc);
      match PageStep(target, pages[0], site, acc)
      case Err(e) => s == Scan(Err(e), 1)
      case Ok(st) =>
        if st.more then
          var rest := ReadBooksFrom(target, pages[1..], site, st.books);
          s == Scan(rest.books, rest.visited + 1)
        else s == Scan(Ok(st.books), 1)
  {
  }

  /** `get_read_books`: the walk from an empty `Books`. */
  function ReadBooks(target: YearMonth, pages: seq<seq<string>>, site: string -> Detail): Scan
    requires NonEmptyPages(pages)
  {
    ReadBooksFrom(target, pages, site, [])
  }

  /** The walk never goes past a page whose last filled slot is older than
      the target: such a page always stops it. */
  lemma {:induction false} ReadBooksStopsAtOlderPage(target: YearMonth, pages: seq<seq<string>>, site: string -> Detail, acc: seq<Book>, k: nat)
    requires NonEmptyPages(pages)
    requires k < |pages| && PageBounds(pages[k], site).Ok? && YmLt(PageBounds(pages[k], site).value.last, target)
    ensures ReadBooksFrom(target, pages, site, acc).visited <= k + 1
    decreases k
  {
    if k > 0 {
      assert pages[1..][k - 1] == pages[k];
      match PageBounds(pages[0], site)
      case Err(_) =>
      case Ok(b) =>
        match Decide(target, b.first, b.last)
        case Skip => ReadBooksStopsAtOlderPage(target, pages[1..], site, acc, k - 1);
        case Stop =>
        case ExtractAndStop =>
        case ExtractAndContinue =>
          if TargetBooks(target, pages[0], site).Ok? {
            var tb := TargetBooks(target, pages[0], site).value;
            ReadBooksStopsAtOlderPage(target, pages[1..], site, DedupAppend(acc, tb), k - 1);
          }
    }
  }

  /** The walk only appends to what was collected before, and never gives
      two collected books the same (name, author). */
  lemma {:induction false} ReadBooksKeepsAcc(target: YearMonth, pages: seq<seq<string>>, site: string -> Detail, acc: seq<Book>)
    requires NonEmptyPages(pages)
    ensures ReadBooksFrom(target, pages, site, acc).books.Ok? ==>
      |acc| <= |ReadBooksFrom(target, pages, site, acc).books.value|
      && ReadBooksFrom(target, pages, site, acc).books.value[..|acc|] == acc
    ensures ReadBooksFrom(target, pages, site, acc).books.Ok? && DistinctIdentities(acc) ==>
      DistinctIdentities(ReadBooksFrom(target, pages, site, acc).books.value)
    decreases |pages|
  {
    if pages != [] && PageBounds(pages[0], site).Ok? && TargetBooks(target, pages[0], site).Ok? {
      var b := PageBounds(pages[0], site).value;
      var tb := TargetBooks(target, pages[0], site).value;
      var acc' := DedupAppend(acc, tb);
      if DistinctIdentities(acc) {
        DedupAppendDistinct(acc, tb);
      }
      match Decide(target, b.first, b.last)
      case Skip => ReadBooksKeepsAcc(target, pages[1..], site, acc);
      case Stop =>
      case ExtractAndStop =>
      case ExtractAndContinue =>
        ReadBooksKeepsAcc(target, pages[1..], site, acc');
        var r := ReadBooksFrom(target, pages[1..], site, acc');
        if r.books.Ok? {
          assert r.books.value[..|acc|] == r.books.value[..|acc'|][..|acc|];
        }
    } else if pages != [] && PageBounds(pages[0], site).Ok? {
      var b := PageBounds(pages[0], site).value;
      if Decide(target, b.first, b.last) == Skip {
        ReadBooksKeepsAcc(target, pages[1..], site, acc);
      }
    }
  }

  /** The book of filled slot `i` of a page is read in `target`. */
  predicate SlotReadIn(target: YearMonth, links: seq<string>, i: int, site: string -> Detail) {
    0 <= i < |links| && links[i] != "" && site(links[i]).readDate.Some? && target in ReadYms(site(links[i]))
  }

  /** What extracting a page adds is the `get_target_books` record of one
      of its filled slots read in the target month. */
  lemma ExtractedBooksFromPage(target: YearMonth, links: seq<string>, site: string -> Detail, acc: seq<Book>)
    requires TargetBooks(target, links, site).Ok?
    ensures forall b :: b in DedupAppend(acc, TargetBooks(target, links, site).value) && b !in acc ==>
      exists i :: SlotReadIn(target, links, i, site) && b == TargetBook(links[i], site(links[i]))
  {
    var tb := TargetBooks(target, links, site).value;
    TargetBooksExact(target, links, site);
    DedupAppendIdentities(acc, tb);
    forall b | b in DedupAppend(acc, tb) && b !in acc
      ensures exists i :: SlotReadIn(target, links, i, site) && b == TargetBook(links[i], site(links[i]))
    {
      assert b in tb;
    }
  }

  /** Everything the walk adds is the `get_target_books` record of a filled
      slot of an examined page that was read in the target month. */
  lemma {:induction false} ReadBooksSound(target: YearMonth, pages: seq<seq<string>>, site: string -> Detail, acc: seq<Book>)
    requires NonEmptyPages(pages)
    ensures var s := ReadBooksFrom(target, pages, site, acc);
      s.books.Ok? ==> forall b :: b in s.books.value ==> (b in acc ||
        exists p, i :: 0 <= p < s.visited && SlotReadIn(target, pages[p], i, site)
          && b == TargetBook(pages[p][i], site(pages[p][i])))
    decreases |pages|
  {
    var s := ReadBooksFrom(target, pages, site, acc);
    if pages != [] && PageBounds(pages[0], site).Ok? && s.books.Ok? {
      var bd := PageBounds(pages[0], site).value;
      var act := Decide(target, bd.first, bd.last);
      if act == Skip {
        ReadBooksSound(target, pages[1..], site, acc);
        forall b | b in s.books.value && b !in acc
          ensures exists p, i :: (0 <= p < s.visited && SlotReadIn(target, pages[p], i, site)
            && b == TargetBook(pages[p][i], site(pages[p][i])))
        {
          var p, i :| 0 <= p < s.visited - 1 && SlotReadIn(target, pages[1..][p], i, site)
            && b == TargetBook(pages[1..][p][i], site(pages[1..][p][i]));
          assert pages[1..][p] == pages[p + 1];
        }
      } else if act != Stop {
        var tb := TargetBooks(target, pages[0], site).value;
        var acc' := DedupAppend(acc, tb);
        ExtractedBooksFromPage(target, pages[0], site, acc);
        if act == ExtractAndContinue {
          ReadBooksSound(target, pages[1..], site, acc');
          forall b | b in s.books.value && b !in acc
            ensures exists p, i :: (0 <= p < s.visited && SlotReadIn(target, pages[p], i, site)
              && b == TargetBook(pages[p][i], site(pages[p][i])))
          {
            if b in acc' {
              var i :| SlotReadIn(target, pages[0], i, site) && b == TargetBook(pages[0][i], site(pages[0][i]));
              assert 0 < s.visited;
            } else {
              var p, i :| 0 <= p < s.visited - 1 && SlotReadIn(target, pages[1..][p], i, site)
                && b == TargetBook(pages[1..][p][i], site(pages[1..][p][i]));
              assert pages[1..][p] == pages[p + 1];
            }
          }
        }
      }
    }
  }

  // -----------------------------------------------------------------------
  // Completeness on a listing sorted newest first

  /** Every page has a filled first slot and every filled slot a read date. */
  predicate WellFormedPages(pages: seq<seq<string>>, site: string -> Detail) {
    forall p :: p in pages ==> |p| > 0 && p[0] != "" && AllDated(p, site)
  }

  /** The read month of a filled slot's book. */
  function SlotYm(link: string, site: string -> Detail): YearMonth
    requires site(link).readDate.Some?
  {
    site(link).readDate.value.Ym()
  }

  /** The filled slots, read page by page and slot by slot, never get newer
      (the order of the read-books listing). */
  predicate NewestFirst(pages: seq<seq<string>>, site: string -> Detail)
    requires WellFormedPages(pages, site)
  {
    forall p, i, q, j ::
      0 <= p <= q < |pages| && 0 <= i < |pages[p]| && 0 <= j < |pages[q]| && (p < q || i < j)
      && pages[p][i] != "" && pages[q][j] != ""
      ==> YmLe(SlotYm(pages[q][j], site), SlotYm(pages[p][i], site))
  }

  /** On a sorted listing the first page's bounds exist, enclose the read
      month of each of its filled slots, and lie above every later slot. */
  lemma FirstPageBounds(pages: seq<seq<string>>, site: string -> Detail)
    requires pages != [] && WellFormedPages(pages, site) && NewestFirst(pages, site)
    ensures PageBounds(pages[0], site).Ok?
    ensures forall i :: 0 <= i < |pages[0]| && pages[0][i] != "" ==>
      YmLe(PageBounds(pages[0], site).value.last, SlotYm(pages[0][i], site))
      && YmLe(SlotYm(pages[0][i], site), PageBounds(pages[0], site).value.first)
    ensures forall q, j :: 0 < q < |pages| && 0 <= j < |pages[q]| && pages[q][j] != "" ==>
      YmLe(SlotYm(pages[q][j], site), PageBounds(pages[0], site).value.last)
  {
    var links := pages[0];
    assert links in pages;
    var k := LastFilled(links).value;
    forall i | 0 <= i < |links| && links[i] != ""
      ensures YmLe(SlotYm(links[k], site), SlotYm(links[i], site))
    {
      if i != k {
        assert i < k;
      }
    }
  }

  /** The tail of a sorted listing is sorted. */
  lemma NewestFirstTail(pages: seq<seq<string>>, site: string -> Detail)
    requires pages != [] && WellFormedPages(pages, site) && NewestFirst(pages, site)
    ensures WellFormedPages(pages[1..], site) && NewestFirst(pages[1..], site)
  {
    var tail := pages[1..];
    forall p, i, q, j |
      0 <= p <= q < |tail| && 0 <= i < |tail[p]| && 0 <= j < |tail[q]| && (p < q || i < j)
      && tail[p][i] != "" && tail[q][j] != ""
      ensures YmLe(SlotYm(tail[q][j], site), SlotYm(tail[p][i], site))
    {
      assert tail[p] == pages[p + 1] && tail[q] == pages[q + 1];
    }
  }

  /** On a listing sorted newest first, a successful walk holds the
      identity of every first-page book whose read date is in the target
      month. */
  lemma FirstPageTargetsKept(target: YearMonth, pages: seq<seq<string>>, site: string -> Detail, acc: seq<Book>)
    requires pages != [] && WellFormedPages(pages, site) && NewestFirst(pages, site)
    requires ReadBooksFrom(target, pages, site, acc).books.Ok?
    ensures forall i :: (0 <= i < |pages[0]| && pages[0][i] != "" && SlotYm(pages[0][i], site) == target) ==>
      HasIdentity(ReadBooksFrom(target, pages, site, acc).books.value, TargetBook(pages[0][i], site(pages[0][i])))
  {
    FirstPageBounds(pages, site);
    var links := pages[0];
    assert links in pages;
    var bd := PageBounds(links, site).value;
    var act := Decide(target, bd.first, bd.last);
    var r := ReadBooksFrom(target, pages, site, acc);
    forall i | 0 <= i < |links| && links[i] != "" && SlotYm(links[i], site) == target
      ensures HasIdentity(r.books.value, TargetBook(links[i], site(links[i])))
    {
      var d := site(links[i]);
      assert ReadYms(d)[0] == target;
      if act == Skip {
        assert false;
      } else if act == Stop {
        assert false;
      } else {
        TargetBooksFails(target, links, site);
        var tb := TargetBooks(target, links, site).value;
        var acc' := DedupAppend(acc, tb);
        TargetBooksExact(target, links, site);
        DedupAppendIdentities(acc, tb);
        var j :| 0 <= j < |tb| && tb[j] == TargetBook(links[i], d);
        assert HasIdentity(acc', tb[j]);
        if act == ExtractAndContinue {
          ReadBooksKeepsAcc(target, pages[1..], site, acc');
          var x :| x in acc' && SameIdentity(x, tb[j]);
          var rv := r.books.value;
          assert rv[..|acc'|] == acc';
          assert x in rv;
        }
      }
    }
  }

  /** On a listing sorted newest first, the walk succeeds and collects (by
      name and author) the book of every filled slot whose read date falls
      in the target month. */
  lemma {:induction false} ReadBooksComplete(target: YearMonth, pages: seq<seq<string>>, site: string -> Detail, acc: seq<Book>)
    requires WellFormedPages(pages, site) && NewestFirst(pages, site)
    ensures NonEmptyPages(pages)
    ensures ReadBooksFrom(target, pages, site, acc).books.Ok?
    ensures forall p, i ::
      (0 <= p < |pages| && 0 <= i < |pages[p]| && pages[p][i] != "" && SlotYm(pages[p][i], site) == target) ==>
        HasIdentity(ReadBooksFrom(target, pages, site, acc).books.value, TargetBook(pages[p][i], site(pages[p][i])))
    decreases |pages|
  {
    if pages != [] {
      FirstPageBounds(pages, site);
      NewestFirstTail(pages, site);
      var links := pages[0];
      assert links in pages;
      var bd := PageBounds(links, site).value;
      TargetBooksFails(target, links, site);
      var tb := TargetBooks(target, links, site).value;
      var acc' := DedupAppend(acc, tb);
      var r := ReadBooksFrom(target, pages, site, acc);
      var act := Decide(target, bd.first, bd.last);
      if act == Skip || act == ExtractAndContinue {
        var base := if act == Skip then acc else acc';
        ReadBooksComplete(target, pages[1..], site, base);
        forall p, i | 1 <= p < |pages| && 0 <= i < |pages[p]| && pages[p][i] != ""
          && SlotYm(pages[p][i], site) == target
          ensures HasIdentity(r.books.value, TargetBook(pages[p][i], site(pages[p][i])))
        {
          assert pages[1..][p - 1] == pages[p];
        }
      } else {
        // slots of later pages are no newer than page 0's last slot
        forall p, i | 1 <= p < |pages| && 0 <= i < |pages[p]| && pages[p][i] != ""
          ensures SlotYm(pages[p][i], site) != target
        {
        }
      }
      FirstPageTargetsKept(target, pages, site, acc);
    }
  }

  // -----------------------------------------------------------------------
  // A worked walk

  /** A detail page read on the first day of a month of 2016, never re-read. */
  function ReadIn2016(title: string, month: int): Detail {
    Detail(title, "author", "", Some(Date(2016, month, 1)), [])
  }

  /** A site whose five books were read from January to May 2016, one a month. */
  function Site2016(l: string): Detail {
    if l == "/b/5" then ReadIn2016("e", 5) else if l == "/b/4" then ReadIn2016("d", 4)
    else if l == "/b/3" then ReadIn2016("c", 3) else if l == "/b/2" then ReadIn2016("b", 2)
    else ReadIn2016("a", 1)
  }

  /** Two pages, May to March then February to January, and target April:
      the first page brackets the target strictly, so its one April book is
      taken and the walk stops there without examining the second page. */
  lemma WalkStopsInsideBracketingPage()
    ensures ReadBooks(YearMonth(2016, 4), [["/b/5", "/b/4", "/b/3", ""], ["/b/2", "/b/1", "", ""]], Site2016)
      == Scan(Ok([TargetBook("/b/4", ReadIn2016("d", 4))]), 1)
  {
    var page := ["/b/5", "/b/4", "/b/3", ""];
    var target := YearMonth(2016, 4);
    assert LastFilled(page) == Some(2);
    assert PageBounds(page, Site2016) == Ok(Bounds(YearMonth(2016, 5), YearMonth(2016, 3)));
    assert Decide(target, YearMonth(2016, 5), YearMonth(2016, 3)) == ExtractAndStop;
    assert ReadYms(ReadIn2016("e", 5)) == [YearMonth(2016, 5)];
    assert ReadYms(ReadIn2016("d", 4)) == [YearMonth(2016, 4)];
    assert ReadYms(ReadIn2016("c", 3)) == [YearMonth(2016, 3)];
    assert page[..1][..0] == [] && page[..2][..1] == page[..1] && page[..3][..2] == page[..2];
    assert page[..2][1] == "/b/4" && page[..3][2] == "/b/3";
    assert TargetBooks(target, page[..1], Site2016) == Ok([]);
    var want := TargetBook("/b/4", ReadIn2016("d", 4));
    assert [] + [want] == [want];
    assert TargetBooks(target, page[..2], Site2016) == Ok([want]);
    assert TargetBooks(target, page[..3], Site2016) == Ok([want]);
    assert page[..4] == page && page[..4][..3] == page[..3];
    assert TargetBooks(target, page, Site2016) == Ok([want]);
    assert DedupAppend([], [want]) == [want];
  }

  // -----------------------------------------------------------------------
  // Re-read books and the order of the listing

  /** A detail page read on `read` and re-read on each of `rereads`. */
  function ReadOn(title: string, read: Date, rereads: seq<Date>): Detail {
    Detail(title, "author", "", Some(read), rereads)
  }

  /** A site where `/x`, first read in January 2022, was re-read on
      20 June 2023, so a listing ordered by the latest read date puts it
      between July and June 2023. */
  function RereadSite(l: string): Detail {
    if l == "/a" then ReadOn("a", Date(2023, 7, 1), [])
    else if l == "/x" then ReadOn("x", Date(2022, 1, 1), [Date(2023, 6, 20)])
    else if l == "/c" then ReadOn("c", Date(2023, 6, 1), [])
    else ReadOn("d", Date(2023, 5, 1), [])
  }

  /** With the listing ordered by the latest read date, the re-read book
      makes the first page's last month January 2022, so the first page
      brackets June 2023, is extracted, and stops the walk: `/c`, read in
      June 2023 on the second page, is never collected. */
  lemma WalkMissesBookAfterRereadSlot()
    ensures RereadSite("/c").readDate.value.Ym() == YearMonth(2023, 6)
    ensures ReadBooks(YearMonth(2023, 6), [["/a", "/x"], ["/c", "/d"]], RereadSite)
      == Scan(Ok([TargetBook("/x", RereadSite("/x"))]), 1)
    ensures !HasIdentity([TargetBook("/x", RereadSite("/x"))], TargetBook("/c", RereadSite("/c")))
  {
    var page := ["/a", "/x"];
    var target := YearMonth(2023, 6);
    assert LastFilled(page) == Some(1);
    assert PageBounds(page, RereadSite) == Ok(Bounds(YearMonth(2023, 7), YearMonth(2022, 1)));
    assert Decide(target, YearMonth(2023, 7), YearMonth(2022, 1)) == ExtractAndStop;
    assert ReadYms(RereadSite("/a")) == [YearMonth(2023, 7)];
    assert ReadYms(RereadSite("/x")) == [YearMonth(2022, 1), YearMonth(2023, 6)];
    assert page[..1][..0] == [] && page[..2][..1] == page[..1] && page[..2] == page;
    assert TargetBooks(target, page[..1], RereadSite) == Ok([]);
    var want := TargetBook("/x", RereadSite("/x"));
    assert [] + [want] == [want];
    assert TargetBooks(target, page, RereadSite) == Ok([want]);
    assert DedupAppend([], [want]) == [want];
  }

  /** A site where `/x`, read in January 2023, was re-read in June 2023. */
  function SplitSite(l: string): Detail {
    if l == "/a" then ReadOn("a", Date(2023, 8, 1), [])
    else if l == "/b" then ReadOn("b", Date(2023, 7, 1), [])
    else ReadOn("x", Date(2023, 1, 1), [Date(2023, 6, 1)])
  }

  /** The two-page listing of `SplitSite` is well formed and sorted newest
      first by read date. */
  lemma SplitListingSorted()
    ensures WellFormedPages([["/a", "/b"], ["/x", ""]], SplitSite)
    ensures NewestFirst([["/a", "/b"], ["/x", ""]], SplitSite)
  {
    var pages := [["/a", "/b"], ["/x", ""]];
    assert pages[0] == ["/a", "/b"] && pages[1] == ["/x", ""];
    assert WellFormedPages(pages, SplitSite);
    assert SlotYm("/a", SplitSite) == YearMonth(2023, 8) && SlotYm("/b", SplitSite) == YearMonth(2023, 7);
    assert SlotYm("/x", SplitSite) == YearMonth(2023, 1);
    forall p, i, q, j |
      0 <= p <= q < |pages| && 0 <= i < |pages[p]| && 0 <= j < |pages[q]| && (p < q || i < j)
      && pages[p][i] != "" && pages[q][j] != ""
      ensures YmLe(SlotYm(pages[q][j], SplitSite), SlotYm(pages[p][i], SplitSite))
    {
      if p == q {
        assert p == 0 && i == 0 && j == 1;
      } else {
        assert pages[q][j] == "/x";
      }
    }
  }

  /** Over two pages the first is skipped (all of it after June) and the
      second, starting in January, stops the walk with nothing taken. */
  lemma SplitListingWalk()
    ensures ReadBooks(YearMonth(2023, 6), [["/a", "/b"], ["/x", ""]], SplitSite) == Scan(Ok([]), 2)
  {
    var target := YearMonth(2023, 6);
    var pages := [["/a", "/b"], ["/x", ""]];
    assert pages[0] == ["/a", "/b"] && pages[1] == ["/x", ""];
    assert LastFilled(pages[0]) == Some(1) && LastFilled(pages[1]) == Some(0);
    assert PageBounds(pages[0], SplitSite) == Ok(Bounds(YearMonth(2023, 8), YearMonth(2023, 7)));
    assert Decide(target, YearMonth(2023, 8), YearMonth(2023, 7)) == Skip;
    assert PageBounds(pages[1], SplitSite) == Ok(Bounds(YearMonth(2023, 1), YearMonth(2023, 1)));
    assert Decide(target, YearMonth(2023, 1), YearMonth(2023, 1)) == Stop;
    assert pages[1..][0] == pages[1];
  }

  /** On one page the same slots bracket June, and the re-read book is
      taken. */
  lemma UnsplitListingWalk()
    ensures ReadBooks(YearMonth(2023, 6), [["/a", "/b", "/x"]], SplitSite)
      == Scan(Ok([TargetBook("/x", SplitSite("/x"))]), 1)
  {
    var target := YearMonth(2023, 6);
    var page := ["/a", "/b", "/x"];
    assert LastFilled(page) == Some(2);
    assert PageBounds(page, SplitSite) == Ok(Bounds(YearMonth(2023, 8), YearMonth(2023, 1)));
    assert Decide(target, YearMonth(2023, 8), YearMonth(2023, 1)) == ExtractAndStop;
    assert ReadYms(SplitSite("/a")) == [YearMonth(2023, 8)];
    assert ReadYms(SplitSite("/b")) == [YearMonth(2023, 7)];
    assert ReadYms(SplitSite("/x")) == [YearMonth(2023, 1), YearMonth(2023, 6)];
    assert page[..1][..0] == [] && page[..2][..1] == page[..1] && page[..3][..2] == page[..2] && page[..3] == page;
    assert TargetBooks(target, page[..1], SplitSite) == Ok([]);
    assert TargetBooks(target, page[..2], SplitSite) == Ok([]);
    var want := TargetBook("/x", SplitSite("/x"));
    assert [] + [want] == [want];
    assert TargetBooks(target, page, SplitSite) == Ok([want]);
    assert DedupAppend([], [want]) == [want];
  }

  /** The same three slots, sorted newest first by their read dates, give
      different results depending on where the page break falls: on one
      page the book re-read in June is collected; with `/x` alone on the
      second page, that page starts before June and stops the walk. */
  lemma WalkDependsOnPageSplit()
    ensures WellFormedPages([["/a", "/b"], ["/x", ""]], SplitSite)
    ensures NewestFirst([["/a", "/b"], ["/x", ""]], SplitSite)
    ensures ReadBooks(YearMonth(2023, 6), [["/a", "/b"], ["/x", ""]], SplitSite).books
      != ReadBooks(YearMonth(2023, 6), [["/a", "/b", "/x"]], SplitSite).books
  {
    SplitListingSorted();
    SplitListingWalk();
    UnsplitListingWalk();
  }
}

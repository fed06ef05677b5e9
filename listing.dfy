/** Listing pages as fixed-capacity arrays of slots, and what the scraper's
    slot scans extract from them. A book slot is the link of its detail
    page, the empty string when the slot is empty; the detail pages are
    read through `site`, the remote site as the agent sees it. */
module Listing {
  import opened Records

  // ---------------------------------------------------------------------
  // Slot positions

  /** How many leading slots are filled: where a `1.upto(N)` scan that
      breaks on the first empty slot stops. */
  function FilledPrefix(links: seq<string>): (n: nat)
    ensures n <= |links|
    ensures forall i :: 0 <= i < n ==> links[i] != ""
    ensures n < |links| ==> links[n] == ""
  {
    if links == [] || links[0] == "" then 0 else 1 + FilledPrefix(links[1..])
  }

  /** The highest-indexed filled slot, if any (`get_last_book_date`'s
      `downto` scan). */
  function LastFilled(links: seq<string>): (r: Option<nat>)
    ensures r.Some? ==> r.value < |links| && links[r.value] != ""
    ensures r.Some? ==> forall j :: r.value < j < |links| ==> links[j] == ""
    ensures r.None? ==> forall j :: 0 <= j < |links| ==> links[j] == ""
  {
    if links == [] then None
    else if links[|links| - 1] != "" then Some(|links| - 1)
    else LastFilled(links[..|links| - 1])
  }

  // ---------------------------------------------------------------------
  // get_book_structs

  /** The book `get_book_structs` builds for a filled slot: the read date
      when the detail page has one, then every re-read date. */
  function ListedBook(link: string, d: Detail): Book {
    Book(d.name, d.author,
         (if d.readDate.Some? then [d.readDate.value] else []) + d.rereadDates,
         RootUri + link, d.imageUri)
  }

  /** The books of one listing page, up to its first empty slot. */
  function BookStructs(links: seq<string>, site: string -> Detail): seq<Book>
    decreases |links|
  {
    if links == [] || links[0] == "" then []
    else [ListedBook(links[0], site(links[0]))] + BookStructs(links[1..], site)
  }

  /** `get_book_structs` yields one book per slot of the filled prefix, in
      slot order, and nothing from the first empty slot onwards. */
  lemma {:induction false} BookStructsPrefix(links: seq<string>, site: string -> Detail)
    ensures |BookStructs(links, site)| == FilledPrefix(links) <= |links|
    ensures forall k :: 0 <= k < FilledPrefix(links) ==>
      BookStructs(links, site)[k] == ListedBook(links[k], site(links[k]))
    decreases |links|
  {
    if links != [] && links[0] != "" {
      BookStructsPrefix(links[1..], site);
    }
  }

  /** The books of several pages, page after page, with no deduplication. */
  function BooksOfPages(pages: seq<seq<string>>, site: string -> Detail): seq<Book>
    decreases |pages|
  {
    if pages == [] then []
    else BooksOfPages(pages[..|pages| - 1], site) + BookStructs(pages[|pages| - 1], site)
  }

  /** Splitting the pages anywhere splits the result at the same place. */
  lemma {:induction false} BooksOfPagesAppend(p: seq<seq<string>>, q: seq<seq<string>>, site: string -> Detail)
    ensures BooksOfPages(p + q, site) == BooksOfPages(p, site) + BooksOfPages(q, site)
    decreases |q|
  {
    if q == [] {
      assert p + q == p;
    } else {
      var q' := q[..|q| - 1];
      assert (p + q)[..|p + q| - 1] == p + q';
      assert (p + q)[|p + q| - 1] == q[|q| - 1];
      BooksOfPagesAppend(p, q', site);
    }
  }

  /** Each page of `NumBooksPerPage` slots contributes at most that many books. */
  lemma {:induction false} BooksOfPagesBound(pages: seq<seq<string>>, site: string -> Detail)
    requires forall p :: p in pages ==> |p| == NumBooksPerPage
    ensures |BooksOfPages(pages, site)| <= NumBooksPerPage * |pages|
    decreases |pages|
  {
    if pages != [] {
      BooksOfPagesBound(pages[..|pages| - 1], site);
      BookStructsPrefix(pages[|pages| - 1], site);
    }
  }

  // ---------------------------------------------------------------------
  // get_target_books

  /** The year-months at which a book was read: its read date's, then each
      re-read date's (`read_yms`). */
  function ReadYms(d: Detail): seq<YearMonth>
    requires d.readDate.Some?
  {
    [d.readDate.value.Ym()] + seq(|d.rereadDates|, k requires 0 <= k < |d.rereadDates| => d.rereadDates[k].Ym())
  }

  /** `target` is a read year-month of the book exactly when it is the read
      date's month or some re-read date's month. */
  lemma ReadYmsSpec(target: YearMonth, d: Detail)
    requires d.readDate.Some?
    ensures target in ReadYms(d) <==>
      target == d.readDate.value.Ym() || exists k :: 0 <= k < |d.rereadDates| && d.rereadDates[k].Ym() == target
  {
    var yms := ReadYms(d);
    if target in yms && target != d.readDate.value.Ym() {
      var j :| 0 <= j < |yms| && yms[j] == target;
      assert j > 0 && d.rereadDates[j - 1].Ym() == target;
    }
    if exists k :: 0 <= k < |d.rereadDates| && d.rereadDates[k].Ym() == target {
      var k :| 0 <= k < |d.rereadDates| && d.rereadDates[k].Ym() == target;
      assert yms[k + 1] == target;
    }
  }

  /** The book `get_target_books` builds for a matching slot: all of its read
      dates, the read date first. */
  function TargetBook(link: string, d: Detail): Book
    requires d.readDate.Some?
  {
    Book(d.name, d.author, [d.readDate.value] + d.rereadDates, RootUri + link, d.imageUri)
  }

  /** The books of one page read in `target`: every filled slot is examined
      (empty ones are skipped, not a stop); a filled slot whose detail page
      has no read date makes the scan fail. */
  function TargetBooks(target: YearMonth, links: seq<string>, site: string -> Detail): Result<seq<Book>>
    decreases |links|
  {
    if links == [] then Ok([])
    else match TargetBooks(target, links[..|links| - 1], site)
      case Err(e) => Err(e)
      case Ok(bs) =>
        var link := links[|links| - 1];
        var d := site(link);
        if link == "" then Ok(bs)
        else if d.readDate.None? then Err(MissingReadDate(link))
        else if target in ReadYms(d) then Ok(bs + [TargetBook(link, d)])
        else Ok(bs)
  }

  /** Every filled slot of the page has a read date on its detail page. */
  predicate AllDated(links: seq<string>, site: string -> Detail) {
    forall i :: 0 <= i < |links| && links[i] != "" ==> site(links[i]).readDate.Some?
  }

  /** `get_target_books` fails exactly when some filled slot has no read
      date, and then names the first such slot. */
  lemma {:induction false} TargetBooksFails(target: YearMonth, links: seq<string>, site: string -> Detail)
    ensures TargetBooks(target, links, site).Ok? <==> AllDated(links, site)
    ensures TargetBooks(target, links, site).Err? ==>
      exists i :: 0 <= i < |links| && links[i] != "" && site(links[i]).readDate.None?
        && TargetBooks(target, links, site).error == MissingReadDate(links[i])
        && AllDated(links[..i], site)
    decreases |links|
  {
    if links != [] {
      var front := links[..|links| - 1];
      TargetBooksFails(target, front, site);
      assert forall i :: 0 <= i < |front| ==> front[i] == links[i];
      if TargetBooks(target, front, site).Err? {
        var i :| 0 <= i < |front| && front[i] != "" && site(front[i]).readDate.None?
          && TargetBooks(target, front, site).error == MissingReadDate(front[i])
          && AllDated(front[..i], site);
        assert front[..i] == links[..i];
      } else if TargetBooks(target, links, site).Err? {
        assert links[..|links| - 1] == front;
      }
    }
  }

  /** A failure on the first `n` slots is the failure of the whole page:
      the scan stops at the first slot that raises. */
  lemma {:induction false} TargetBooksFailurePersists(target: YearMonth, links: seq<string>, n: nat, site: string -> Detail)
    requires n <= |links| && TargetBooks(target, links[..n], site).Err?
    ensures TargetBooks(target, links, site) == TargetBooks(target, links[..n], site)
    decreases |links|
  {
    if n == |links| {
      assert links[..n] == links;
    } else {
      var front := links[..|links| - 1];
      assert front[..n] == links[..n];
      TargetBooksFailurePersists(target, front, n, site);
    }
  }

  /** A successful `get_target_books` keeps a filled slot's book exactly
      when `target` is one of its read year-months, attaching all of its
      read dates. */
  lemma {:induction false} TargetBooksExact(target: YearMonth, links: seq<string>, site: string -> Detail)
    requires TargetBooks(target, links, site).Ok?
    ensures forall b :: b in TargetBooks(target, links, site).value ==>
      exists i :: 0 <= i < |links| && links[i] != "" && site(links[i]).readDate.Some?
        && target in ReadYms(site(links[i])) && b == TargetBook(links[i], site(links[i]))
    ensures forall i :: (0 <= i < |links| && links[i] != "" && site(links[i]).readDate.Some?
        && target in ReadYms(site(links[i]))) ==> TargetBook(links[i], site(links[i])) in TargetBooks(target, links, site).value
    decreases |links|
  {
    if links != [] {
      var front := links[..|links| - 1];
      TargetBooksExact(target, front, site);
      assert forall i :: 0 <= i < |front| ==> front[i] == links[i];
    }
  }

  // ---------------------------------------------------------------------
  // get_user_structs

  /** One user slot of a followers or followings page: the `title` of its
      link and the link itself; an empty name marks an empty slot. */
  datatype UserSlot = UserSlot(name: string, link: string)

  predicate IsDigit(c: char) {
    '0' <= c <= '9'
  }

  predicate AllDigits(s: string) {
    forall i :: 0 <= i < |s| ==> IsDigit(s[i])
  }

  /** Length of the longest digit run that ends `s`. */
  function TrailingDigits(s: string): (n: nat)
    ensures n <= |s|
    ensures forall i :: |s| - n <= i < |s| ==> IsDigit(s[i])
    ensures n < |s| ==> !IsDigit(s[|s| - n - 1])
  {
    if s == [] || !IsDigit(s[|s| - 1]) then 0 else 1 + TrailingDigits(s[..|s| - 1])
  }

  /** The capture of `/\/u\/(\d+)$/` on a user link: the digits that end the
      link right after `/u/`. */
  function UserIdOf(link: string): Option<string> {
    var n := TrailingDigits(link);
    if n > 0 && |link| >= n + 3 && link[|link| - n - 3..|link| - n] == "/u/"
    then Some(link[|link| - n..])
    else None
  }

  /** `UserIdOf` accepts exactly the links that end in `/u/` followed by a
      non-empty run of digits, and returns that run. */
  lemma UserIdOfSpec(link: string, id: string)
    ensures UserIdOf(link) == Some(id) <==>
      |id| > 0 && AllDigits(id) && |link| >= |id| + 3 && link[|link| - |id| - 3..] == "/u/" + id
  {
    var n := TrailingDigits(link);
    if |id| > 0 && AllDigits(id) && |link| >= |id| + 3 && link[|link| - |id| - 3..] == "/u/" + id {
      var m := |link|;
      assert link[m - |id| - 1] == '/' by {
        assert link[m - |id| - 3..][2] == '/';
      }
      forall i | m - |id| <= i < m ensures IsDigit(link[i]) {
        assert link[i] == link[m - |id| - 3..][i - (m - |id| - 3)] == id[i - (m - |id|)];
      }
      assert n == |id|;
      assert link[m - n - 3..m - n] == link[m - |id| - 3..][..3];
      assert link[m - n..] == link[m - |id| - 3..][3..];
    }
  }

  /** The user record for a filled slot (`User.new(name, id, ROOT_URI + "/u/#{id}")`);
      a link without a user id fails. */
  function UserOf(slot: UserSlot): Result<User> {
    match UserIdOf(slot.link)
    case None => Err(MalformedUserLink(slot.link))
    case Some(id) => Ok(User(slot.name, id, RootUri + "/u/" + id))
  }

  /** The users of one page, up to its first slot with an empty name. */
  function UserStructs(slots: seq<UserSlot>): Result<seq<User>>
    decreases |slots|
  {
    if slots == [] || slots[0].name == "" then Ok([])
    else match UserOf(slots[0])
      case Err(e) => Err(e)
      case Ok(u) => Prepend([u], UserStructs(slots[1..]))
  }

  /** `us` followed by the users of `r`; a failure stays a failure. */
  function Prepend<T>(us: seq<T>, r: Result<seq<T>>): Result<seq<T>> {
    match r
    case Err(e) => Err(e)
    case Ok(vs) => Ok(us + vs)
  }

  /** Prepending nothing changes nothing; prepending twice is prepending
      the concatenation. */
  lemma PrependLaws<T>(a: seq<T>, b: seq<T>, r: Result<seq<T>>)
    ensures Prepend([], r) == r
    ensures Prepend(a, Prepend(b, r)) == Prepend(a + b, r)
  {
    if r.Ok? {
      assert [] + r.value == r.value;
      assert a + (b + r.value) == (a + b) + r.value;
    }
  }

  /** A successful `get_user_structs` returns one user per slot of the
      named prefix, in slot order, each with a digits-only id that ends its
      link and a profile URI built from it; nothing past the first empty
      name is read. */
  lemma {:induction false} UserStructsPrefix(slots: seq<UserSlot>)
    requires UserStructs(slots).Ok?
    ensures |UserStructs(slots).value| <= |slots|
    ensures |UserStructs(slots).value| < |slots| ==> slots[|UserStructs(slots).value|].name == ""
    ensures forall k :: 0 <= k < |UserStructs(slots).value| ==>
      slots[k].name != "" && UserOf(slots[k]) == Ok(UserStructs(slots).value[k])
    ensures forall u :: u in UserStructs(slots).value ==>
      |u.id| > 0 && AllDigits(u.id) && u.uri == RootUri + "/u/" + u.id
    decreases |slots|
  {
    if slots != [] && slots[0].name != "" {
      UserStructsPrefix(slots[1..]);
      var id := UserIdOf(slots[0].link).value;
      UserIdOfSpec(slots[0].link, id);
    }
  }

  /** How many leading slots carry a name: where `get_user_structs` stops. */
  function NamedPrefix(slots: seq<UserSlot>): (n: nat)
    ensures n <= |slots|
    ensures forall i :: 0 <= i < n ==> slots[i].name != ""
    ensures n < |slots| ==> slots[n].name == ""
  {
    if slots == [] || slots[0].name == "" then 0 else 1 + NamedPrefix(slots[1..])
  }

  /** `get_user_structs` fails exactly when some slot of the named prefix
      has a link without a user id, and then names the first such link. */
  lemma {:induction false} UserStructsFails(slots: seq<UserSlot>)
    ensures UserStructs(slots).Ok? <==>
      forall k :: 0 <= k < NamedPrefix(slots) ==> UserIdOf(slots[k].link).Some?
    ensures UserStructs(slots).Err? ==>
      exists k :: 0 <= k < NamedPrefix(slots) && UserIdOf(slots[k].link).None?
        && UserStructs(slots).error == MalformedUserLink(slots[k].link)
        && forall j :: 0 <= j < k ==> UserIdOf(slots[j].link).Some?
    ensures UserStructs(slots).Ok? ==> |UserStructs(slots).value| == NamedPrefix(slots)
    decreases |slots|
  {
    if slots != [] && slots[0].name != "" {
      var rest := slots[1..];
      UserStructsFails(rest);
      assert forall k :: 0 <= k < |rest| ==> rest[k] == slots[k + 1];
      if UserIdOf(slots[0].link).Some? {
        if UserStructs(rest).Err? {
          var k :| 0 <= k < NamedPrefix(rest) && UserIdOf(rest[k].link).None?
            && UserStructs(rest).error == MalformedUserLink(rest[k].link)
            && forall j :: 0 <= j < k ==> UserIdOf(rest[j].link).Some?;
          assert UserIdOf(slots[k + 1].link).None?;
          forall j | 0 <= j < k + 1 ensures UserIdOf(slots[j].link).Some? {
            if j > 0 {
              assert slots[j] == rest[j - 1];
            }
          }
        } else {
          forall k | 0 <= k < NamedPrefix(slots) ensures UserIdOf(slots[k].link).Some? {
            if k > 0 {
              assert slots[k] == rest[k - 1];
            }
          }
        }
      } else {
        assert UserStructs(slots).Err?;
      }
    }
  }

  /** The users of several pages, page after page, with no deduplication;
      the first page that fails makes the whole fail. */
  function UsersOfPages(pages: seq<seq<UserSlot>>): Result<seq<User>>
    decreases |pages|
  {
    if pages == [] then Ok([])
    else match UsersOfPages(pages[..|pages| - 1])
      case Err(e) => Err(e)
      case Ok(us) => Prepend(us, UserStructs(pages[|pages| - 1]))
  }

  /** Joining two results: the first failure wins, otherwise the users of
      the first followed by those of the second. */
  function Join<T>(a: Result<seq<T>>, b: Result<seq<T>>): Result<seq<T>> {
    match a
    case Err(e) => Err(e)
    case Ok(us) => Prepend(us, b)
  }

  lemma JoinAssociative<T>(a: Result<seq<T>>, b: Result<seq<T>>, c: Result<seq<T>>)
    ensures Join(Join(a, b), c) == Join(a, Join(b, c))
  {
    if a.Ok? && b.Ok? && c.Ok? {
      assert a.value + b.value + c.value == a.value + (b.value + c.value);
    }
  }

  /** Splitting the pages anywhere splits the result at the same place. */
  lemma {:induction false} UsersOfPagesAppend(p: seq<seq<UserSlot>>, q: seq<seq<UserSlot>>)
    ensures UsersOfPages(p + q) == Join(UsersOfPages(p), UsersOfPages(q))
    decreases |q|
  {
    if q == [] {
      assert p + q == p;
      if UsersOfPages(p).Ok? {
        assert UsersOfPages(p).value + [] == UsersOfPages(p).value;
      }
    } else {
      var q' := q[..|q| - 1];
      assert (p + q)[..|p + q| - 1] == p + q';
      assert (p + q)[|p + q| - 1] == q[|q| - 1];
      UsersOfPagesAppend(p, q');
      var last := UserStructs(q[|q| - 1]);
      calc {
        UsersOfPages(p + q);
        Join(UsersOfPages(p + q'), last);
        Join(Join(UsersOfPages(p), UsersOfPages(q')), last);
        { JoinAssociative(UsersOfPages(p), UsersOfPages(q'), last); }
        Join(UsersOfPages(p), Join(UsersOfPages(q'), last));
        Join(UsersOfPages(p), UsersOfPages(q));
      }
    }
  }
}

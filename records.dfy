/** Value records shared by the scraper: dates, year-months, books, users,
    the data a book's detail page yields, and the failures the Ruby code
    raises. */
module Records {

  datatype Option<+T> = None | Some(value: T)

  /** The exceptions the scraper lets escape, one constructor per cause. */
  datatype Failure =
    | MissingReadDate(uri: string)   // a detail page without a read date
    | NoFilledSlot                   // a listing page whose every slot is empty
    | MalformedUserLink(link: string) // a user link the `/u/<digits>` pattern rejects
    | MissingTitle                   // a profile page without its title heading

  datatype Result<+T> = Ok(value: T) | Err(error: Failure)

  /** Slots per listing page (scraper.rb `NUM_BOOKS_PER_PAGE`, `NUM_USERS_PER_PAGE`). */
  const NumBooksPerPage: nat := 40
  const NumUsersPerPage: nat := 20

  /** `ROOT_URI` is defined outside the modelled file; its value is left open. */
  const RootUri: string

  /** A calendar month, ordered by year then month (stands for `Time.local(y, m)`). */
  datatype YearMonth = YearMonth(year: int, month: int)

  predicate YmLt(a: YearMonth, b: YearMonth) {
    a.year < b.year || (a.year == b.year && a.month < b.month)
  }

  predicate YmLe(a: YearMonth, b: YearMonth) {
    YmLt(a, b) || a == b
  }

  /** A read date (stands for `Time.local(y, m, d)`). */
  datatype Date = Date(year: int, month: int, day: int) {
    function Ym(): (ym: YearMonth)
      ensures ym.year == year && ym.month == month
    {
      YearMonth(year, month)
    }
  }

  /** `Scraper::Book`: identity for deduplication is (name, author). */
  datatype Book = Book(name: string, author: string, readDates: seq<Date>, uri: string, imageUri: string)

  /** `Scraper::User`. */
  datatype User = User(name: string, id: string, uri: string)

  /** What the scraper reads off a book's detail page: `#title`, `#author_name`,
      the image `src`, the read-date selects and the re-read boxes. */
  datatype Detail = Detail(
    name: string,
    author: string,
    imageUri: string,
    readDate: Option<Date>,
    rereadDates: seq<Date>)

  predicate SameIdentity(a: Book, b: Book) {
    a.name == b.name && a.author == b.author
  }
}

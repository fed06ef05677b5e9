/** `Scraper::Books`: an ordered list of books that `concat` extends only
    with books whose (name, author) is not present yet. */
module BookCollection {
  import opened Records

  /** Some element of `s` has the name and author of `b` (`@books.any?`). */
  predicate HasIdentity(s: seq<Book>, b: Book) {
    exists x :: x in s && SameIdentity(x, b)
  }

  /** No two elements share (name, author). */
  predicate DistinctIdentities(s: seq<Book>) {
    forall i, j :: 0 <= i < j < |s| ==> !SameIdentity(s[i], s[j])
  }

  /** The contents after `concat(batch)` on contents `acc`: each candidate,
      in order, is appended unless an element already present (including
      one appended earlier in the same batch) shares its identity. The
      old contents always stay in front, unchanged. */
  function DedupAppend(acc: seq<Book>, batch: seq<Book>): (r: seq<Book>)
    ensures |acc| <= |r| <= |acc| + |batch|
    ensures r[..|acc|] == acc
    decreases |batch|
  {
    if batch == [] then acc
    else
      var r0 := DedupAppend(acc, batch[..|batch| - 1]);
      var b := batch[|batch| - 1];
      if HasIdentity(r0, b) then r0 else r0 + [b]
  }

  /** `batch[j]` is the first candidate of its identity and that identity
      is not in `acc`: exactly the candidates `concat` keeps. */
  predicate FirstNew(acc: seq<Book>, batch: seq<Book>, j: nat)
    requires j < |batch|
  {
    !HasIdentity(acc, batch[j]) && forall i :: 0 <= i < j ==> !SameIdentity(batch[i], batch[j])
  }

  /** Reference definition: the first-new candidates of `batch`, in batch order. */
  function FirstNewOnes(acc: seq<Book>, batch: seq<Book>): seq<Book>
    decreases |batch|
  {
    if batch == [] then []
    else
      FirstNewOnes(acc, batch[..|batch| - 1])
      + (if FirstNew(acc, batch, |batch| - 1) then [batch[|batch| - 1]] else [])
  }

  /** The identities present after `concat` are exactly those of the old
      contents and of the batch; every element comes from one of the two. */
  lemma {:induction false} DedupAppendIdentities(acc: seq<Book>, batch: seq<Book>)
    ensures forall x :: x in DedupAppend(acc, batch) ==> x in acc || x in batch
    ensures forall j :: 0 <= j < |batch| ==> HasIdentity(DedupAppend(acc, batch), batch[j])
    ensures forall b :: HasIdentity(DedupAppend(acc, batch), b) <==>
      HasIdentity(acc, b) || exists j :: 0 <= j < |batch| && SameIdentity(batch[j], b)
    decreases |batch|
  {
    if batch != [] {
      var front := batch[..|batch| - 1];
      var b := batch[|batch| - 1];
      DedupAppendIdentities(acc, front);
      var r0 := DedupAppend(acc, front);
      var r := DedupAppend(acc, batch);
      assert forall j :: 0 <= j < |front| ==> front[j] == batch[j];
      forall x | x in r ensures x in acc || x in batch {
        if x in r0 {
          if x in front {
            var k :| 0 <= k < |front| && front[k] == x;
            assert batch[k] == x;
          }
        }
      }
      forall j | 0 <= j < |batch| ensures HasIdentity(r, batch[j]) {
        if j < |front| {
          assert HasIdentity(r0, front[j]);
          var x :| x in r0 && SameIdentity(x, front[j]);
          assert x in r && front[j] == batch[j];
        } else if !HasIdentity(r0, b) {
          assert r[|r| - 1] == b && SameIdentity(b, batch[j]);
        } else {
          assert r == r0 && batch[j] == b;
        }
      }
      forall c ensures HasIdentity(r, c) <==>
        HasIdentity(acc, c) || exists j :: 0 <= j < |batch| && SameIdentity(batch[j], c)
      {
        if HasIdentity(r, c) {
          var x :| x in r && SameIdentity(x, c);
          if x in r0 {
            assert HasIdentity(r0, c);
            if !HasIdentity(acc, c) {
              var j :| 0 <= j < |front| && SameIdentity(front[j], c);
              assert SameIdentity(batch[j], c);
            }
          } else {
            assert x == b;
            assert SameIdentity(batch[|batch| - 1], c);
          }
        }
        if HasIdentity(acc, c) {
          assert HasIdentity(r0, c);
          var x :| x in r0 && SameIdentity(x, c);
          assert x in r;
        }
        if exists j :: 0 <= j < |batch| && SameIdentity(batch[j], c) {
          var j :| 0 <= j < |batch| && SameIdentity(batch[j], c);
          var x :| x in r && SameIdentity(x, batch[j]);
          assert SameIdentity(x, c);
        }
      }
    }
  }

  /** `concat` keeps exactly the first-new candidates, in batch order, each
      with its own read dates: the old contents followed by `FirstNewOnes`. */
  lemma {:induction false} DedupAppendKeepsFirstNew(acc: seq<Book>, batch: seq<Book>)
    ensures DedupAppend(acc, batch) == acc + FirstNewOnes(acc, batch)
    decreases |batch|
  {
    if batch != [] {
      var front := batch[..|batch| - 1];
      var b := batch[|batch| - 1];
      DedupAppendKeepsFirstNew(acc, front);
      DedupAppendIdentities(acc, front);
      var r0 := DedupAppend(acc, front);
      assert forall j :: 0 <= j < |front| ==> front[j] == batch[j];
      if HasIdentity(r0, b) {
        if !HasIdentity(acc, b) {
          var j :| 0 <= j < |front| && SameIdentity(front[j], b);
          assert SameIdentity(batch[j], batch[|batch| - 1]);
        }
        assert !FirstNew(acc, batch, |batch| - 1);
      } else {
        assert FirstNew(acc, batch, |batch| - 1);
      }
    }
  }

  /** `concat` never gives two elements the same identity when none shared
      one before. */
  lemma {:induction false} DedupAppendDistinct(acc: seq<Book>, batch: seq<Book>)
    requires DistinctIdentities(acc)
    ensures DistinctIdentities(DedupAppend(acc, batch))
    decreases |batch|
  {
    if batch != [] {
      var front := batch[..|batch| - 1];
      var b := batch[|batch| - 1];
      DedupAppendDistinct(acc, front);
      var r0 := DedupAppend(acc, front);
      if !HasIdentity(r0, b) {
        var r := r0 + [b];
        forall i, j | 0 <= i < j < |r| ensures !SameIdentity(r[i], r[j]) {
          if j == |r| - 1 {
            assert r[i] in r0;
          }
        }
      }
    }
  }

  /** A batch whose identities are all present already changes nothing. */
  lemma {:induction false} DedupAppendAllPresent(acc: seq<Book>, batch: seq<Book>)
    requires forall j :: 0 <= j < |batch| ==> HasIdentity(acc, batch[j])
    ensures DedupAppend(acc, batch) == acc
    decreases |batch|
  {
    if batch != [] {
      var front := batch[..|batch| - 1];
      assert forall j :: 0 <= j < |front| ==> front[j] == batch[j];
      DedupAppendAllPresent(acc, front);
      assert HasIdentity(acc, batch[|batch| - 1]);
    }
  }

  /** Concatenating the same batch twice equals concatenating it once. */
  lemma DedupAppendIdempotent(acc: seq<Book>, batch: seq<Book>)
    ensures DedupAppend(DedupAppend(acc, batch), batch) == DedupAppend(acc, batch)
  {
    DedupAppendIdentities(acc, batch);
    DedupAppendAllPresent(DedupAppend(acc, batch), batch);
  }

  class Books {
    var books: seq<Book>

    /** `Books.new`: an empty collection. */
    constructor ()
      ensures books == []
    {
      books := [];
    }

    /** `Books#concat`. */
    method Concat(batch: seq<Book>)
      modifies this
      ensures books == DedupAppend(old(books), batch)
    {
      for i := 0 to |batch|
        invariant books == DedupAppend(old(books), batch[..i])
      {
        var book := batch[i];
        assert batch[..i + 1][..i] == batch[..i];
        if HasIdentity(books, book) {
          continue;
        }
        books := books + [book];
      }
      assert batch[..|batch|] == batch;
    }

    /** `books << batch` followed by `books.flatten!`, both delegated to the
        underlying array: every element of the batch is appended, with no
        identity check. */
    method Append(batch: seq<Book>)
      modifies this
      ensures books == old(books) + batch
    {
      books := books + batch;
    }

    /** `Books#to_a`. */
    method ToA() returns (r: seq<Book>)
      ensures r == books
    {
      r := books;
    }
  }
}

/** The decision rules of the public `feedback` and `book` routes, each a
    function of the request fields it reads and the store it consults. */
module Routes {
  import opened Api
  import opened Catalog
  import opened Query

  // ---------------------------------------------------------------------
  // POST feedback

  /** The response and the feedback store after the route has run. */
  datatype FeedbackOutcome = FeedbackOutcome(response: Envelope<bool>, saved: seq<Feedback>)

  /** `userId` is checked before `content`; on success one record is saved. */
  function PostFeedback(userId: Option<int>, content: Option<string>, saved: seq<Feedback>): (r: FeedbackOutcome)
    ensures userId.None? ==> r.response == Error(1, "miss userId")
    ensures userId.Some? && content.None? ==> r.response == Error(2, "miss content")
    ensures r.response.Success? <==> userId.Some? && content.Some?
    ensures r.response.Error? ==> r.saved == saved
    ensures r.response.Success? ==>
              r.response.data && r.saved == saved + [Feedback(content.value, userId.value)]
  {
    match userId
    case None => FeedbackOutcome(Error(1, "miss userId"), saved)
    case Some(uid) =>
      match content
      case None => FeedbackOutcome(Error(2, "miss content"), saved)
      case Some(text) => FeedbackOutcome(Success(true), saved + [Feedback(text, uid)])
  }

  // ---------------------------------------------------------------------
  // GET book/search

  /** The ids of the stored books the search route selects, before paging. */
  function SearchBooks(searchKey: Option<string>, categoryId: Option<int>, store: map<int, Book>): (ids: set<int>)
    ensures ids <= store.Keys
    ensures forall id :: id in ids <==> id in store && Wanted(searchKey, categoryId, store[id])
  {
    var q := SearchQuery(searchKey, categoryId);
    set id | id in store && Matches(q, store[id])
  }

  /** A search key wins: the category, present or not, changes nothing. */
  lemma SearchKeyIgnoresCategory(key: string, categoryId: Option<int>, store: map<int, Book>)
    ensures SearchQuery(Some(key), categoryId) == SearchQuery(Some(key), None)
    ensures SearchBooks(Some(key), categoryId, store) == SearchBooks(Some(key), None, store)
  {
  }

  /** Browsing a category lists exactly its approved books. */
  lemma CategoryBrowsingHidesUnapproved(id: int, store: map<int, Book>)
    ensures forall bid :: bid in SearchBooks(None, Some(id), store) <==>
              bid in store && store[bid].classifyId == id && IsApproved(store[bid])
  {
  }

  /** With neither parameter every stored book is listed. */
  lemma UnfilteredSearchListsAll(store: map<int, Book>)
    ensures SearchBooks(None, None, store) == store.Keys
  {
  }

  // ---------------------------------------------------------------------
  // GET book/:userId

  /** `books.filter({$0.state != 1})`. */
  function ApprovedOnly(books: seq<Book>): (r: seq<Book>)
    ensures |r| <= |books|
    ensures forall b :: b in r ==> b in books && IsApproved(b)
  {
    if books == [] then []
    else if IsApproved(books[0]) then [books[0]] + ApprovedOnly(books[1..])
    else ApprovedOnly(books[1..])
  }

  /** `r` is `s` with some elements dropped and the rest kept in order. */
  predicate IsSubsequence<T(==)>(r: seq<T>, s: seq<T>)
    decreases |s|
  {
    if r == [] then true
    else if s == [] then false
    else if r[0] == s[0] then IsSubsequence(r[1..], s[1..])
    else IsSubsequence(r, s[1..])
  }

  /** What a visitor may see of an owner's list `s`: `s` in order, with
      every approved copy kept and every unapproved book dropped. */
  ghost predicate IsVisitorView(r: seq<Book>, s: seq<Book>) {
    && IsSubsequence(r, s)
    && (forall b :: b in r ==> IsApproved(b))
    && (forall b :: IsApproved(b) ==> multiset(r)[b] == multiset(s)[b])
  }

  /** A user not found answers code 1 before `pid` is looked at; the owner
      (`userId == pid`) sees every book; anyone else sees the visitor view. */
  function UserBooks(userId: int, pid: Option<int>, users: map<int, User>): (r: Envelope<seq<Book>>)
    ensures userId !in users ==> r == Error(1, "user not found")
    ensures userId in users && pid.None? ==> r == Error(2, "pid miss")
    ensures userId in users && pid == Some(userId) ==> r == Success(users[userId].createdBooks)
    ensures userId in users && pid.Some? && pid.value != userId ==>
              r.Success? && IsVisitorView(r.data, users[userId].createdBooks)
  {
    if userId !in users then Error(1, "user not found")
    else match pid
      case None => Error(2, "pid miss")
      case Some(p) =>
        var books := users[userId].createdBooks;
        if userId == p then Success(books)
        else
          ApprovedOnlyIsVisitorView(books);
          Success(ApprovedOnly(books))
  }

  lemma {:induction false} ApprovedOnlyIsSubsequence(s: seq<Book>)
    ensures IsSubsequence(ApprovedOnly(s), s)
  {
    if s != [] {
      ApprovedOnlyIsSubsequence(s[1..]);
      if IsApproved(s[0]) {
        assert ApprovedOnly(s)[1..] == ApprovedOnly(s[1..]);
      } else {
        SkipHeadOfSubsequence(ApprovedOnly(s), s);
      }
    }
  }

  /** Dropping an element of `s` that `r` does not start with keeps `r` a
      subsequence. */
  lemma {:induction false} SkipHeadOfSubsequence(r: seq<Book>, s: seq<Book>)
    requires s != [] && IsSubsequence(r, s[1..])
    requires r != [] ==> r[0] != s[0]
    ensures IsSubsequence(r, s)
  {
  }

  lemma {:induction false} ApprovedOnlyCounts(s: seq<Book>)
    ensures forall b :: IsApproved(b) ==> multiset(ApprovedOnly(s))[b] == multiset(s)[b]
  {
    if s != [] {
      ApprovedOnlyCounts(s[1..]);
      assert s == [s[0]] + s[1..];
    }
  }

  lemma ApprovedOnlyIsVisitorView(s: seq<Book>)
    ensures IsVisitorView(ApprovedOnly(s), s)
  {
    ApprovedOnlyIsSubsequence(s);
    ApprovedOnlyCounts(s);
  }

  /** A subsequence never holds more copies of anything than the sequence. */
  lemma {:induction false} SubsequenceSubMultiset<T>(r: seq<T>, s: seq<T>)
    requires IsSubsequence(r, s)
    ensures multiset(r) <= multiset(s)
  {
    if r != [] {
      SubsequenceSubMultiset(if r[0] == s[0] then r[1..] else r, s[1..]);
      assert s == [s[0]] + s[1..];
      if r[0] == s[0] {
        assert r == [r[0]] + r[1..];
      }
    }
  }

  /** The visitor view is determined by the owner's list: the filter is the
      only sequence that fits it. */
  lemma {:induction false} VisitorViewIsUnique(r: seq<Book>, s: seq<Book>)
    requires IsVisitorView(r, s)
    ensures r == ApprovedOnly(s)
  {
    if s == [] {
    } else {
      var h := s[0];
      assert s == [h] + s[1..];
      if IsApproved(h) {
        assert multiset(s)[h] >= 1;
        assert r != [] && r[0] == h by {
          if r == [] || r[0] != h {
            SubsequenceSubMultiset(r, s[1..]);
            assert false;
          }
        }
        assert r == [h] + r[1..];
        forall b | IsApproved(b)
          ensures multiset(r[1..])[b] == multiset(s[1..])[b]
        {
          assert multiset(r)[b] == multiset(s)[b];
        }
        VisitorViewIsUnique(r[1..], s[1..]);
      } else {
        assert r != [] ==> r[0] != h by {
          if r != [] {
            assert r[0] in r;
          }
        }
        forall b | IsApproved(b)
          ensures multiset(r)[b] == multiset(s[1..])[b]
        {
          assert multiset(r)[b] == multiset(s)[b];
        }
        VisitorViewIsUnique(r, s[1..]);
      }
    }
  }

  /** Whatever a visitor sees, the owner sees too, as often and in the same
      order; the two views agree exactly when no book awaits approval. */
  lemma VisitorSeesPartOfOwnerView(userId: int, visitor: int, users: map<int, User>)
    requires userId in users && visitor != userId
    ensures UserBooks(userId, Some(userId), users).Success?
    ensures UserBooks(userId, Some(visitor), users).Success?
    ensures IsSubsequence(UserBooks(userId, Some(visitor), users).data, UserBooks(userId, Some(userId), users).data)
    ensures multiset(UserBooks(userId, Some(visitor), users).data) <= multiset(UserBooks(userId, Some(userId), users).data)
    ensures UserBooks(userId, Some(visitor), users) == UserBooks(userId, Some(userId), users)
            <==> forall b :: b in users[userId].createdBooks ==> IsApproved(b)
  {
    var owned := users[userId].createdBooks;
    var seen := UserBooks(userId, Some(visitor), users).data;
    SubsequenceSubMultiset(seen, owned);
    if forall b :: b in owned ==> IsApproved(b) {
      AllApprovedKeepsAll(owned);
    }
  }

  lemma {:induction false} AllApprovedKeepsAll(s: seq<Book>)
    requires forall b :: b in s ==> IsApproved(b)
    ensures ApprovedOnly(s) == s
  {
    if s != [] {
      assert s[0] in s;
      AllApprovedKeepsAll(s[1..]);
      assert s == [s[0]] + s[1..];
    }
  }

  // ---------------------------------------------------------------------
  // GET book/info

  /** A missing `bookId` answers code 1, an unknown one code 2; otherwise the
      stored book. The store is only read. */
  function BookInfo(bookId: Option<int>, store: map<int, Book>): (r: Envelope<Book>)
    ensures bookId.None? ==> r == Error(1, "miss bookId")
    ensures bookId.Some? && bookId.value !in store ==> r == Error(2, "not find book")
    ensures r.Success? <==> bookId.Some? && bookId.value in store
    ensures r.Success? ==> r.data == store[bookId.value]
  {
    match bookId
    case None => Error(1, "miss bookId")
    case Some(id) =>
      if id in store then Success(store[id]) else Error(2, "not find book")
  }

  /** Every stored book can be fetched by the id it carries: a corollary of
      `BookInfo`'s contract, stated for stores that keep each book under its
      own id. */
  lemma BookInfoFindsEveryStoredBook(store: map<int, Book>, id: int)
    requires ConsistentStore(store) && id in store
    ensures BookInfo(Some(store[id].id), store) == Success(store[id])
  {
  }
}

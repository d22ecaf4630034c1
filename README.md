# twicebook routes: a Dafny model of the book and feedback decision rules

twicebook is a small HTTP API server (Swift, Vapor) for a book-sharing
service. The `feedback`, `book/isbn`, `book/:userId` and `book/info` routes
answer with a uniform envelope, `ApiRes.success(data:)` or
`ApiRes.error(code:msg:)`, where `code` is an application code and not an
HTTP status. The page routes render templates and `hello` returns raw JSON
(`Sources/App/Routes.swift:7-25`). `book/search` returns whatever
`Book.page(...)` builds (lines 53, 61, 63); the closure itself calls no
`ApiRes`, and the code of `Book.page` is not shown. This project models the
four public routes in `Sources/App/Routes.swift` that make a decision of
their own:

- `POST feedback`: checks `userId`, then `content`, then saves one `Feedback`.
- `GET book/search`: builds exactly one query. A search key gives an OR-group
  on name and ISBN. Otherwise a category gives an AND-group on the category and
  "not unapproved". Otherwise there is no filter.
- `GET book/:userId`: the owner (path id equal to the `pid` parameter) sees
  every book the user created. Anyone else sees only books whose `state` is not
  1 (unapproved), in the original order.
- `GET book/info`: checks `bookId`, then looks the book up.

Each closure is a chain of early returns with no loops and no mutable state.
Each is modelled as a pure function over optional request fields and
map-shaped stores.

Files:

- `api.dfy` (module `Api`): `Option` for request fields and `Envelope` for
  `ApiRes`.
- `catalog.dfy` (module `Catalog`): `Book`, `User` and `Feedback`, and the
  constant `UNAPPROVED = 1`.
- `query.dfy` (module `Query`): the filter tree (`Leaf | And | Or | NoFilter`)
  and its meaning for one book (`Matches`). It also holds the reference
  meaning of a search (`Wanted`) and the query builder `SearchQuery`.
- `routes.dfy` (module `Routes`): the four handlers and the lemmas about them.

Collaborators are parameters. `User.find` and `Book.find` are map lookups.
`feedback.save()` appends to a sequence that the handler returns. The rows that
`user.createBooks()` yields are the `createdBooks` sequence of the `User`
record.

The ownership check compares the path id with the `pid` query parameter,
which any caller can set. The route sits outside the `AuthMiddleware` group
(`Sources/App/Routes.swift:67-75, 109-110`), and the source's own comment at
line 66 says this API has a problem. The model follows the code.

## Model

| member | source | states |
|---|---|---|
| Query.SearchQuery | Sources/App/Routes.swift:46-64 | The query is well formed: groups are non-empty and every comparison fits its column's type. It is "no filter" exactly when both parameters are absent. A book matches it exactly when `Wanted` holds: the key occurs in the name or the ISBN; else the book is in the category and approved; else every book. |
| Query.Column | Sources/App/Routes.swift:50-59 | The columns the search filters name (`name`, `isbn`, `classifyId`, `state`): a column yields a string exactly when it is a text column (`name`, `isbn`), so `contains` applies only to those. |
| Routes.SearchBooks | Sources/App/Routes.swift:46-64 | The ids selected before paging are a subset of the store. An id is selected exactly when its book is wanted under the first-match-wins policy. |
| Routes.SearchKeyIgnoresCategory | Sources/App/Routes.swift:48-54 | With a search key present, the query and the selected ids are the same whatever `categoryId` is. |
| Routes.CategoryBrowsingHidesUnapproved | Sources/App/Routes.swift:56-62 | With no key and a category id, an id is selected exactly when its book has that `classifyId` and a `state` other than 1. |
| Routes.UnfilteredSearchListsAll | Sources/App/Routes.swift:63 | With both parameters absent, every stored book is selected. |
| Routes.PostFeedback | Sources/App/Routes.swift:28-38 | A missing `userId` gives error 1 whether or not `content` is present. A present `userId` with no `content` gives error 2. Success happens exactly when both are present. It then appends exactly `Feedback(content, userId)` to the store and answers `true`. On an error the store is unchanged. |
| Routes.UserBooks | Sources/App/Routes.swift:67-82 | An unknown user gives error 1 before `pid` is checked. A known user with no `pid` gives error 2. When `pid` equals the path id, the result is the user's whole book list. Otherwise the result is a visitor view: an order-preserving subsequence of that list with no unapproved book and every approved copy kept. |
| Routes.ApprovedOnly | Sources/App/Routes.swift:79 | The filter result is no longer than its input. Every element it keeps is an approved book of the input. |
| Routes.ApprovedOnlyIsSubsequence | Sources/App/Routes.swift:79 | The filter keeps the original order: its result is a subsequence of the input. |
| Routes.ApprovedOnlyCounts | Sources/App/Routes.swift:79 | For each approved book, the filter keeps every copy of it in the input. |
| Routes.ApprovedOnlyIsVisitorView | Sources/App/Routes.swift:79 | The filter's result is a visitor view of its input. |
| Routes.SubsequenceSubMultiset | Sources/App/Routes.swift:79 | A subsequence is a sub-multiset, so a filtered list never holds more copies of a book than the list it came from. |
| Routes.VisitorViewIsUnique | Sources/App/Routes.swift:78-80 | Any sequence that is a visitor view of a list equals the filter of that list. The visitor-view contract of `UserBooks` therefore fixes the result exactly. |
| Routes.VisitorSeesPartOfOwnerView | Sources/App/Routes.swift:75-80 | For a known user, the owner's and a visitor's requests both succeed. The visitor's list is a subsequence and a sub-multiset of the owner's list. The two lists are equal exactly when none of the user's books is unapproved. |
| Routes.AllApprovedKeepsAll | Sources/App/Routes.swift:79 | The filter returns a list unchanged when every book in it is approved. |
| Routes.BookInfo | Sources/App/Routes.swift:85-93 | A missing `bookId` gives error 1. An id not in the store gives error 2. Success happens exactly when the id is in the store, and it carries the stored book for that id. The store is only read. |
| Routes.BookInfoFindsEveryStoredBook | Sources/App/Routes.swift:89-92 | In a store that keeps each book under its own id, asking for a stored book's id returns that book. |

## Left out

- Static pages (`self.view.make`) and the `hello` echo (`Sources/App/Routes.swift:7-25`) only render templates or echo JSON.
- `book/isbn/:isbn` (`Sources/App/Routes.swift:41-45`) forwards the request to an external ISBN service and passes its JSON through. That service is not part of this model.
- Route-group registration, the controllers it wires up and `AuthMiddleware` (`Sources/App/Routes.swift:96-133`). They are framework wiring, and their code is not part of this model.
- `Book.page` pagination (`Sources/App/Routes.swift:53,61,63`). Its implementation is not part of this model. `SearchBooks` returns the set of selected ids before paging, and the order of that set is left to the store.
- Query execution in the database. `contains` is modelled as a plain substring test. SQL `LIKE` wildcards in the key and any case folding by the database are not modelled.
- Conversion of request values (`?.int`, `?.string`). A field is `None` when it is missing or does not convert, as Swift's optional chaining gives. The conversion rules themselves are not modelled.
- Parsing of the `:userId` path parameter. A path segment that is not an integer makes `req.parameters.next(Int.self)` (line 68) throw inside the closure, so the route gives no envelope; `UserBooks` therefore takes an `int`.
- Failures thrown by storage (`save`, `find`, `createBooks`) and the JSON shape of `ApiRes`. Only the success/error choice, the codes and the messages are modelled.
- The id that `save()` assigns to a new `Feedback` row, and the order in which `createBooks()` returns rows. Both belong to the store.

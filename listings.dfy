/** The marketplace catalogue behind `/api/listings` (`listingController`): creating, updating
    and deleting listings, which only the owner may change, and the public listing query with
    its category and text filter, its sort options and its pagination.

    Listings are numbered in creation order, so the collection's natural order is id order. */
module Listings {
  import opened Common
  import opened Paging
  import opened Sorting

  type UserId = string
  type ListingId = nat

  const ListingNotFound := "Listing not found"
  const ListingDeleted := "Listing deleted successfully"
  const DefaultPageSize := 10

  datatype Category = Books | Electronics | Clothing | Furniture | Services | Other

  function CategoryName(c: Category): string {
    match c
    case Books => "Books"
    case Electronics => "Electronics"
    case Clothing => "Clothing"
    case Furniture => "Furniture"
    case Services => "Services"
    case Other => "Other"
  }

  /** The schema's enum check: the category a string names, if any. */
  function ParseCategory(s: string): (r: Option<Category>)
    ensures r.Some? ==> CategoryName(r.value) == s
    ensures r.None? ==> forall c: Category :: CategoryName(c) != s
  {
    if s == "Books" then Some(Books)
    else if s == "Electronics" then Some(Electronics)
    else if s == "Clothing" then Some(Clothing)
    else if s == "Furniture" then Some(Furniture)
    else if s == "Services" then Some(Services)
    else if s == "Other" then Some(Other)
    else None
  }

  /** Every category name is parsed back to its category. */
  lemma ParseCategoryName(c: Category)
    ensures ParseCategory(CategoryName(c)) == Some(c)
  {
  }

  datatype Listing = Listing(
    id: ListingId,
    title: string,
    description: Option<string>,
    price: real,
    image: Option<string>,
    category: Category,
    owner: UserId,
    createdAt: int)

  /** A number field of the request body: absent, a JSON number, or a string (a form field). */
  datatype NumberInput = Missing | Number(n: real) | Text(s: string)

  /** JavaScript truthiness of such a field (NaN is not modelled). */
  predicate TruthyNumber(x: NumberInput) {
    (x.Number? && x.n != 0.0) || (x.Text? && x.s != "")
  }

  /** The schema's cast of the price to a number. An empty string casts to nothing; `parse` is
      JavaScript's reading of a non-empty numeric string. */
  function CastPrice(x: NumberInput, parse: string -> Option<real>): (r: Option<real>)
    ensures x.Number? ==> r == Some(x.n)
    ensures x.Missing? || x == Text("") ==> r.None?
  {
    match x
    case Missing => None
    case Number(n) => Some(n)
    case Text(s) => if s == "" then None else parse(s)
  }

  /** The fields of a create or update request body. */
  datatype ListingForm = ListingForm(title: Option<string>, description: Option<string>, price: NumberInput,
                                     category: Option<string>)

  /** `Listing.create` with the caller as owner and the uploaded image's stored name, if any.
      The schema requires a non-empty title and a price, and a category from its list; an absent
      category takes the default `Other`. Any violation is a validation error. */
  function NewListing(form: ListingForm, parse: string -> Option<real>, image: Option<string>,
                      owner: UserId, id: ListingId, now: int): (r: Option<Listing>)
    ensures r.Some? <==>
      && Truthy(form.title)
      && CastPrice(form.price, parse).Some?
      && (form.category.None? || ParseCategory(form.category.value).Some?)
    ensures r.Some? ==>
      && r.value.id == id && r.value.owner == owner && r.value.image == image && r.value.createdAt == now
      && r.value.title == form.title.value && r.value.description == form.description
      && r.value.price == CastPrice(form.price, parse).value
      && CategoryName(r.value.category) == form.category.GetOr("Other")
  {
    var price := CastPrice(form.price, parse);
    var category := if form.category.None? then Some(Other) else ParseCategory(form.category.value);
    if !Truthy(form.title) || price.None? || category.None? then None
    else Some(Listing(id, form.title.value, form.description, price.value, image, category.value, owner, now))
  }

  /** `updateListing`'s merge: each field takes the request's value when that value is truthy and
      keeps the stored one otherwise; the image changes only with a new upload; the owner, id and
      creation time never change. Saving fails when a new category is not in the list or a new
      price is not a number. */
  function Merged(l: Listing, form: ListingForm, parse: string -> Option<real>, image: Option<string>): (r: Option<Listing>)
    ensures r.None? <==>
      || (Truthy(form.category) && ParseCategory(form.category.value).None?)
      || (TruthyNumber(form.price) && CastPrice(form.price, parse).None?)
    ensures r.Some? ==>
      && r.value.id == l.id && r.value.owner == l.owner && r.value.createdAt == l.createdAt
      && r.value.title == (if Truthy(form.title) then form.title.value else l.title)
      && r.value.description == (if Truthy(form.description) then form.description else l.description)
      && r.value.price == (if TruthyNumber(form.price) then CastPrice(form.price, parse).value else l.price)
      && (Truthy(form.category) ==> CategoryName(r.value.category) == form.category.value)
      && (!Truthy(form.category) ==> r.value.category == l.category)
      && r.value.image == (if image.Some? then image else l.image)
  {
    var category := if Truthy(form.category) then ParseCategory(form.category.value) else Some(l.category);
    var price := if TruthyNumber(form.price) then CastPrice(form.price, parse) else Some(l.price);
    if category.None? || price.None? then None
    else
      Some(l.(title := if Truthy(form.title) then form.title.value else l.title,
              description := if Truthy(form.description) then form.description else l.description,
              price := price.value,
              category := category.value,
              image := if image.Some? then image else l.image))
  }

  /** A price of 0 and an empty title leave the stored values in place: the merge cannot set a
      field to a falsy value. */
  lemma FalsyValuesKeepOld(l: Listing, form: ListingForm, parse: string -> Option<real>)
    requires form.title == Some("") && form.price == Number(0.0) && !Truthy(form.category)
    ensures Merged(l, form, parse, None).Some?
    ensures Merged(l, form, parse, None).value.title == l.title
    ensures Merged(l, form, parse, None).value.price == l.price
    ensures Merged(l, form, parse, None).value.image == l.image
  {
  }

  /** An empty form and no upload leave the listing as it was. */
  lemma EmptyFormKeepsListing(l: Listing, parse: string -> Option<real>)
    ensures Merged(l, ListingForm(None, None, Missing, None), parse, None) == Some(l)
  {
  }

  // ---------------------------------------------------------------- the listing query

  datatype SortOrder = PriceAscending | PriceDescending | OldestFirst | NewestFirst

  /** The `sort` parameter: three names select an order, anything else (or nothing) the newest
      first. */
  function SelectSort(sort: Option<string>): (o: SortOrder)
    ensures o == PriceAscending <==> sort == Some("price_asc")
    ensures o == PriceDescending <==> sort == Some("price_desc")
    ensures o == OldestFirst <==> sort == Some("oldest")
  {
    if sort == Some("price_asc") then PriceAscending
    else if sort == Some("price_desc") then PriceDescending
    else if sort == Some("oldest") then OldestFirst
    else NewestFirst
  }

  /** The sort key of each order; a descending order sorts on the negated field. */
  function SortKey(o: SortOrder): Listing -> real {
    match o
    case PriceAscending => (l: Listing) => l.price
    case PriceDescending => (l: Listing) => -l.price
    case OldestFirst => (l: Listing) => l.createdAt as real
    case NewestFirst => (l: Listing) => -(l.createdAt as real)
  }

  /** One listing's key is at most another's exactly when the two are in the order's direction. */
  lemma SortKeyMeaning(o: SortOrder, a: Listing, b: Listing)
    ensures o == PriceAscending ==> (SortKey(o)(a) <= SortKey(o)(b) <==> a.price <= b.price)
    ensures o == PriceDescending ==> (SortKey(o)(a) <= SortKey(o)(b) <==> a.price >= b.price)
    ensures o == OldestFirst ==> (SortKey(o)(a) <= SortKey(o)(b) <==> a.createdAt <= b.createdAt)
    ensures o == NewestFirst ==> (SortKey(o)(a) <= SortKey(o)(b) <==> a.createdAt >= b.createdAt)
  {
  }

  datatype ListingQuery = ListingQuery(category: Option<string>, search: Option<string>, sort: Option<string>,
                                       page: Option<int>, limit: Option<int>)

  /** The query's filter: the category must be equal when one is given, and the search text must
      match the title or the description when one is given. */
  predicate Matches(l: Listing, q: ListingQuery, rx: Regex) {
    && (Truthy(q.category) ==> CategoryName(l.category) == q.category.value)
    && (Truthy(q.search) ==>
          rx.test(q.search.value, l.title) || (l.description.Some? && rx.test(q.search.value, l.description.value)))
  }

  /** A category filter selects exactly the listings of the category it names, so a string
      that names no category matches nothing; with neither filter every listing matches. */
  lemma CategoryFilterSelects(l: Listing, q: ListingQuery, rx: Regex)
    ensures Matches(l, q, rx) && Truthy(q.category) ==> ParseCategory(q.category.value) == Some(l.category)
    ensures !Truthy(q.category) && !Truthy(q.search) ==> Matches(l, q, rx)
  {
    ParseCategoryName(l.category);
  }

  function MatchesQuery(q: ListingQuery, rx: Regex): Listing -> bool {
    (l: Listing) => Matches(l, q, rx)
  }

  datatype ListingPagination = ListingPagination(currentPage: int, totalPages: Option<int>, totalItems: nat, itemsPerPage: int)

  datatype ListingPage = ListingPage(listings: seq<Listing>, pagination: ListingPagination)

  /** `getListings` over the collection `rows` in natural order: filter, sort, then
      `.skip((page - 1) * limit).limit(limit)`; the totals count the filtered listings. A negative
      skip or a search text that is not a regular expression makes the database fail. */
  function GetListings(rows: seq<Listing>, q: ListingQuery, rx: Regex): (r: Reply<ListingPage>)
    ensures var p, l := q.page.GetOr(1), q.limit.GetOr(DefaultPageSize);
      && (!r.Ok? <==> Skip(p, l) < 0 || (Truthy(q.search) && !rx.valid(q.search.value)))
      && (!r.Ok? ==> r == Fail(500, ServerError))
      && (r.Ok? ==>
            var matching := Filter(rows, MatchesQuery(q, rx));
            && r.status == 200
            && r.value.pagination == ListingPagination(p, TotalPages(|matching|, l), |matching|, l)
            && (l != 0 ==> |r.value.listings| <= Abs(l))
            && (forall x :: x in r.value.listings ==> x in rows && Matches(x, q, rx))
            && SortedBy(r.value.listings, SortKey(SelectSort(q.sort))))
  {
    var p, l := q.page.GetOr(1), q.limit.GetOr(DefaultPageSize);
    var skip := Skip(p, l);
    if skip < 0 || (Truthy(q.search) && !rx.valid(q.search.value)) then Fail(500, ServerError)
    else
      var matching := Filter(rows, MatchesQuery(q, rx));
      ResultsWindow(rows, q, rx, skip, l);
      Ok(200, ListingPage(Window(Results(rows, q, rx), skip, l),
                          ListingPagination(p, TotalPages(|matching|, l), |matching|, l)))
  }

  /** Every listing that matches the query, in the query's order. */
  function Results(rows: seq<Listing>, q: ListingQuery, rx: Regex): (r: seq<Listing>)
    ensures SortedBy(r, SortKey(SelectSort(q.sort)))
  {
    SortBy(Filter(rows, MatchesQuery(q, rx)), SortKey(SelectSort(q.sort)))
  }

  /** The results hold each matching listing as often as the collection does, and nothing else. */
  lemma ResultsArePermutation(rows: seq<Listing>, q: ListingQuery, rx: Regex)
    ensures forall x :: multiset(Results(rows, q, rx))[x] == if Matches(x, q, rx) then multiset(rows)[x] else 0
  {
    FilterCounts(rows, MatchesQuery(q, rx));
  }

  /** A window of the results is in the query's order and holds only matching listings. */
  lemma ResultsWindow(rows: seq<Listing>, q: ListingQuery, rx: Regex, skip: nat, limit: int)
    ensures var page := Window(Results(rows, q, rx), skip, limit);
      && (forall x :: x in page ==> x in rows && Matches(x, q, rx))
      && SortedBy(page, SortKey(SelectSort(q.sort)))
  {
    var matching := Filter(rows, MatchesQuery(q, rx));
    var key := SortKey(SelectSort(q.sort));
    var sorted := Results(rows, q, rx);
    var page := Window(sorted, skip, limit);
    forall x | x in page ensures x in matching {
      var i :| 0 <= i < |page| && page[i] == x;
      assert sorted[skip + i] == x;
      SortByKeepsElements(matching, key, x);
    }
    forall i, j | 0 <= i < j < |page| ensures key(page[i]) <= key(page[j]) {
      assert page[i] == sorted[skip + i] && page[j] == sorted[skip + j];
    }
  }

  /** With no category and no search text, every listing matches. */
  lemma NoCriteriaMatchesAll(rows: seq<Listing>, q: ListingQuery, rx: Regex)
    requires !Truthy(q.category) && !Truthy(q.search)
    ensures Filter(rows, MatchesQuery(q, rx)) == rows
  {
    FilterKeepsAll(rows, MatchesQuery(q, rx));
  }

  /** The page `getListings` answers with: the window of the results at the skip. */
  lemma ListingReply(rows: seq<Listing>, q: ListingQuery, rx: Regex)
    requires GetListings(rows, q, rx).Ok?
    ensures var l := q.limit.GetOr(DefaultPageSize);
      GetListings(rows, q, rx).value.listings == Window(Results(rows, q, rx), Skip(q.page.GetOr(1), l), l)
  {
  }

  /** A page is the run of the results that starts `(page - 1) * limit` in, and it is cut short
      only by the end of the results. */
  lemma ListingPageIsSlice(rows: seq<Listing>, q: ListingQuery, rx: Regex)
    requires GetListings(rows, q, rx).Ok?
    ensures var l := q.limit.GetOr(DefaultPageSize);
      var skip := Skip(q.page.GetOr(1), l);
      var all := Results(rows, q, rx);
      var page := GetListings(rows, q, rx).value.listings;
      && (|page| > 0 ==> 0 <= skip && skip + |page| <= |all| && page == all[skip..skip + |page|])
      && (skip + |page| >= |all| || (l != 0 && |page| == Abs(l)))
  {
    var l := q.limit.GetOr(DefaultPageSize);
    var skip := Skip(q.page.GetOr(1), l);
    var all := Results(rows, q, rx);
    var page := GetListings(rows, q, rx).value.listings;
    ListingReply(rows, q, rx);
    WindowRun(all, skip, l, page);
  }

  /** The price sort options order the page by price. */
  lemma PriceSortOrdersPage(rows: seq<Listing>, q: ListingQuery, rx: Regex, i: nat, j: nat)
    requires GetListings(rows, q, rx).Ok?
    requires i < j < |GetListings(rows, q, rx).value.listings|
    ensures var page := GetListings(rows, q, rx).value.listings;
      && (q.sort == Some("price_asc") ==> page[i].price <= page[j].price)
      && (q.sort == Some("price_desc") ==> page[i].price >= page[j].price)
      && (q.sort == Some("oldest") ==> page[i].createdAt <= page[j].createdAt)
      && (SelectSort(q.sort) == NewestFirst ==> page[i].createdAt >= page[j].createdAt)
  {
    var page := GetListings(rows, q, rx).value.listings;
    SortKeyMeaning(SelectSort(q.sort), page[i], page[j]);
  }

  // ---------------------------------------------------------------- the catalogue

  /** The listing collection and the time of the latest write. */
  class Catalogue {
    var listings: map<ListingId, Listing>
    var nextId: nat
    var clock: int

    /** Each listing is stored under its own id, ids are below the counter, and no listing was
        created after the latest write. */
    ghost predicate Valid()
      reads this
    {
      forall k :: k in listings ==> k < nextId && listings[k].id == k && listings[k].createdAt <= clock
    }

    constructor (now: int)
      ensures Valid()
      ensures listings == map[] && nextId == 0 && clock == now
    {
      listings, nextId, clock := map[], 0, now;
    }

    /** `createListing`: a valid form becomes a new listing owned by the caller, last in the
        collection's natural order; a validation error is answered with 500. */
    method CreateListing(caller: UserId, form: ListingForm, image: Option<string>,
                         parse: string -> Option<real>, now: int) returns (r: Reply<Listing>)
      requires Valid() && clock <= now
      modifies this
      ensures Valid()
      ensures NewListing(form, parse, image, caller, old(nextId), now).None? ==>
        r == Fail(500, ServerError) && unchanged(this)
      ensures NewListing(form, parse, image, caller, old(nextId), now).Some? ==>
        && r == Ok(201, NewListing(form, parse, image, caller, old(nextId), now).value)
        && listings == old(listings)[old(nextId) := r.value]
        && nextId == old(nextId) + 1 && clock == now
        && Collection(listings, 0, nextId) == old(Collection(listings, 0, nextId)) + [r.value]
    {
      var l := NewListing(form, parse, image, caller, nextId, now);
      if l.None? {
        return Fail(500, ServerError);
      }
      CreatedListingComesLast(listings, 0, nextId, l.value);
      listings := listings[nextId := l.value];
      nextId := nextId + 1;
      clock := now;
      r := Ok(201, l.value);
    }

    /** `updateListing`: owner only; the stored listing becomes the merge of the form into it. */
    method UpdateListing(caller: UserId, id: ListingId, form: ListingForm, image: Option<string>,
                         parse: string -> Option<real>) returns (r: Reply<Listing>)
      requires Valid()
      modifies this
      ensures Valid()
      ensures id !in old(listings) ==> r == Fail(404, ListingNotFound) && unchanged(this)
      ensures id in old(listings) && old(listings)[id].owner != caller ==>
        r == Fail(403, NotAuthorized) && unchanged(this)
      ensures id in old(listings) && old(listings)[id].owner == caller ==>
        var m := Merged(old(listings)[id], form, parse, image);
        && (m.None? ==> r == Fail(500, ServerError) && unchanged(this))
        && (m.Some? ==> r == Ok(200, m.value) && listings == old(listings)[id := m.value]
                        && nextId == old(nextId) && clock == old(clock))
    {
      if id !in listings {
        return Fail(404, ListingNotFound);
      }
      var l := listings[id];
      if l.owner != caller {
        return Fail(403, NotAuthorized);
      }
      var m := Merged(l, form, parse, image);
      if m.None? {
        return Fail(500, ServerError);
      }
      listings := listings[id := m.value];
      r := Ok(200, m.value);
    }

    /** `deleteListing`: owner only; removes that listing and no other. */
    method DeleteListing(caller: UserId, id: ListingId) returns (r: Reply<string>)
      requires Valid()
      modifies this
      ensures Valid()
      ensures id !in old(listings) ==> r == Fail(404, ListingNotFound) && unchanged(this)
      ensures id in old(listings) && old(listings)[id].owner != caller ==>
        r == Fail(403, NotAuthorized) && unchanged(this)
      ensures id in old(listings) && old(listings)[id].owner == caller ==>
        && r == Ok(200, ListingDeleted)
        && listings == old(listings) - {id}
        && nextId == old(nextId) && clock == old(clock)
    {
      if id !in listings {
        return Fail(404, ListingNotFound);
      }
      if listings[id].owner != caller {
        return Fail(403, NotAuthorized);
      }
      listings := listings - {id};
      r := Ok(200, ListingDeleted);
    }
  }

  /** The listings numbered `k` to `bound - 1`, in id order: the collection as `Listing.find`
      scans it. */
  function Collection(listings: map<ListingId, Listing>, k: nat, bound: nat): (rows: seq<Listing>)
    requires forall j :: j in listings ==> listings[j].id == j
    ensures forall x :: x in rows <==> k <= x.id < bound && x.id in listings && listings[x.id] == x
    ensures Increasing(rows, (x: Listing) => x.id as int)
    decreases bound - k
  {
    if k >= bound then []
    else
      var rest := Collection(listings, k + 1, bound);
      if k in listings then
        assert forall i :: 0 <= i < |rest| ==> rest[i] in rest;
        [listings[k]] + rest
      else rest
  }

  /** A listing created under the next id comes last in the collection's natural order. */
  lemma {:induction false} CreatedListingComesLast(listings: map<ListingId, Listing>, k: nat, next: nat, l: Listing)
    requires forall j :: j in listings ==> j < next && listings[j].id == j
    requires l.id == next && k <= next
    ensures Collection(listings[next := l], k, next + 1) == Collection(listings, k, next) + [l]
    decreases next - k
  {
    var after := listings[next := l];
    assert forall j :: j in after ==> after[j].id == j;
    if k == next {
      assert Collection(after, next + 1, next + 1) == [];
      assert Collection(listings, next, next) == [];
    } else {
      var rest := Collection(after, k + 1, next + 1);
      var old_rest := Collection(listings, k + 1, next);
      CreatedListingComesLast(listings, k + 1, next, l);
      assert rest == old_rest + [l];
      if k in listings {
        assert Collection(after, k, next + 1) == [listings[k]] + rest;
        assert Collection(listings, k, next) == [listings[k]] + old_rest;
        assert [listings[k]] + (old_rest + [l]) == ([listings[k]] + old_rest) + [l];
      } else {
        assert Collection(after, k, next + 1) == rest;
        assert Collection(listings, k, next) == old_rest;
      }
    }
  }
}

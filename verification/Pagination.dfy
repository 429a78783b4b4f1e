/** Offset pagination, and a client that follows page tokens until there is none. */
module Pagination {
  import opened Wrappers
  import opened SearchOrder

  datatype Page<T> = Page(records: seq<T>, token: Option<nat>)

  /** Run, logged-model and registry searches ask for one record more than the page holds; trace
      search gives a token with every full page. */
  datatype Style = LimitPlusOne | FullPage

  /** `$skip` then `$limit`. */
  function Slice<T>(l: seq<T>, offset: nat, limit: nat): seq<T> {
    var rest := if offset <= |l| then l[offset..] else [];
    if limit <= |rest| then rest[..limit] else rest
  }

  function GetPage<T>(style: Style, l: seq<T>, offset: nat, size: nat): Page<T> {
    match style
    case LimitPlusOne =>
      var found := Slice(l, offset, size + 1);
      if |found| > size then Page(found[..size], Some(offset + size)) else Page(found, None)
    case FullPage =>
      var found := Slice(l, offset, size);
      Page(found, if |found| == size then Some(offset + size) else None)
  }

  datatype Error = BadMaxResults | NegativeOffset

  datatype Response<T> = Ok(page: Page<T>) | Err(error: Error)

  /** _search_runs around the query: validation, one extra record, cut and token. */
  method SearchRuns<T>(l: seq<T>, offset: int, maxResults: Option<int>, threshold: nat) returns (r: Response<T>)
    ensures r == Err(BadMaxResults) <==> maxResults.Some? && !(1 <= maxResults.value <= threshold)
    ensures r == Err(NegativeOffset) <==> offset < 0 && (maxResults.Some? ==> 1 <= maxResults.value <= threshold)
    ensures r.Ok? && maxResults.Some? ==> r.page == GetPage(LimitPlusOne, l, offset, maxResults.value)
    ensures r.Ok? && maxResults.None? ==> r.page == Page(if offset <= |l| then l[offset..] else [], None)
  {
    if maxResults.Some? {
      if maxResults.value < 1 { return Err(BadMaxResults); }
      if maxResults.value > threshold { return Err(BadMaxResults); }
    }
    if offset < 0 { return Err(NegativeOffset); }
    var records := if maxResults.Some? then Slice(l, offset, maxResults.value + 1) else Slice(l, offset, |l|);
    var token := None;
    if maxResults.Some? && |records| > maxResults.value {
      records := records[..maxResults.value];
      token := Some(offset + maxResults.value);
    }
    return Ok(Page(records, token));
  }

  /** A server as a client sees it: the page for an offset, on its n-th request. */
  type Server<!T> = (nat, nat) -> Page<T>

  ghost predicate Progresses<T(!new)>(fetch: Server<T>, total: nat) {
    forall offset: nat, call: nat :: offset <= total && fetch(offset, call).token.Some? ==>
        offset < fetch(offset, call).token.value <= total
  }

  /** The pages of a client that starts at an offset and follows the tokens until there is none. */
  function Pages<T(!new)>(fetch: Server<T>, total: nat, offset: nat, call: nat): seq<seq<T>>
    requires Progresses(fetch, total) && offset <= total
    decreases total - offset
  {
    var page := fetch(offset, call);
    if page.token.None? then [page.records]
    else [page.records] + Pages(fetch, total, page.token.value, call + 1)
  }

  function Flatten<T>(pages: seq<seq<T>>): seq<T> {
    if pages == [] then [] else pages[0] + Flatten(pages[1..])
  }

  // ---------- the pages make up the list ----------

  /** Whether a page gets a token, given where it ends. */
  predicate Continues(style: Style, end: nat, total: nat) {
    end < total || (style == FullPage && end == total)
  }

  /** Pages cut out of one list. */
  ghost predicate Cuts<T(!new)>(fetch: Server<T>, style: Style, l: seq<T>, size: nat -> nat) {
    forall offset: nat, call: nat :: offset <= |l| ==> CutsAt(fetch(offset, call), style, l, offset, size(call))
  }

  ghost predicate CutsAt<T>(page: Page<T>, style: Style, l: seq<T>, offset: nat, size: nat)
    requires offset <= |l|
  {
    && size > 0
    && if Continues(style, offset + size, |l|) then page == Page(l[offset..offset + size], Some(offset + size))
        else page == Page(l[offset..], None)
  }

  lemma GetPageCuts<T>(style: Style, l: seq<T>, offset: nat, size: nat)
    requires offset <= |l| && size > 0
    ensures CutsAt(GetPage(style, l, offset, size), style, l, offset, size)
  {}

  lemma FlattenCons<T>(page: seq<T>, rest: seq<seq<T>>)
    ensures Flatten([page] + rest) == page + Flatten(rest)
    ensures Flatten([page]) == page
  {
    assert ([page] + rest)[1..] == rest;
    assert [page][1..] == [];
  }

  lemma SliceJoins<T>(l: seq<T>, offset: nat, end: nat)
    requires offset <= end <= |l|
    ensures l[offset..end] + l[end..] == l[offset..]
  {}

  /** Whatever the page sizes, the pages together are the list from the first offset on. */
  lemma {:induction false} PagesFlatten<T(!new)>(fetch: Server<T>, style: Style, l: seq<T>, size: nat -> nat,
      offset: nat, call: nat)
    requires Progresses(fetch, |l|) && Cuts(fetch, style, l, size) && offset <= |l|
    ensures Flatten(Pages(fetch, |l|, offset, call)) == l[offset..]
    decreases |l| - offset
  {
    var end := offset + size(call);
    assert CutsAt(fetch(offset, call), style, l, offset, size(call));
    if Continues(style, end, |l|) {
      PagesFlatten(fetch, style, l, size, end, call + 1);
      FlattenCons(l[offset..end], Pages(fetch, |l|, end, call + 1));
      SliceJoins(l, offset, end);
    } else {
      FlattenCons(l[offset..], []);
    }
  }

  /** Every page but the last is full. With one extra record fetched the last is empty only if there
      was nothing to list; trace search ends with a page that is not full, hence with an empty one if
      the page before it ended the list. */
  lemma {:induction false} PageIsFilled<T(!new)>(fetch: Server<T>, style: Style, l: seq<T>, size: nat -> nat,
      offset: nat, call: nat, i: nat)
    requires Progresses(fetch, |l|) && Cuts(fetch, style, l, size) && offset <= |l|
    requires i < |Pages(fetch, |l|, offset, call)|
    ensures var ps := Pages(fetch, |l|, offset, call);
            && (i < |ps| - 1 ==> |ps[i]| == size(call + i))
            && (i == |ps| - 1 && style == LimitPlusOne ==> (|ps[i]| == 0 <==> offset == |l|))
            && (i == |ps| - 1 && style == FullPage ==> |ps[i]| < size(call + i))
    decreases i
  {
    var end := offset + size(call);
    assert CutsAt(fetch(offset, call), style, l, offset, size(call));
    if i > 0 {
      PageIsFilled(fetch, style, l, size, end, call + 1, i - 1);
      assert call + 1 + (i - 1) == call + i;
    }
  }

  /** Every request runs its own query, whose listing MongoDB is free to choose among those sorted by
      the sent keys, and may ask for its own page size. */
  function SearchServer(s: Search, listing: nat -> seq<Doc>, size: nat -> nat): Server<Doc> {
    (offset: nat, call: nat) => GetPage(if s.Traces? then FullPage else LimitPlusOne, listing(call), offset, size(call))
  }

  lemma SearchServerCuts(s: Search, listing: nat -> seq<Doc>, size: nat -> nat, l: seq<Doc>)
    requires forall i :: listing(i) == l && size(i) > 0
    ensures Progresses(SearchServer(s, listing, size), |l|)
    ensures Cuts(SearchServer(s, listing, size), if s.Traces? then FullPage else LimitPlusOne, l, size)
  {
    var fetch, style := SearchServer(s, listing, size), if s.Traces? then FullPage else LimitPlusOne;
    forall offset: nat, call: nat | offset <= |l| ensures CutsAt(fetch(offset, call), style, l, offset, size(call)) {
      assert listing(call) == l;
      GetPageCuts(style, l, offset, size(call));
    }
    forall offset: nat, call: nat | offset <= |l| && fetch(offset, call).token.Some?
      ensures offset < fetch(offset, call).token.value <= |l|
    {
      assert CutsAt(fetch(offset, call), style, l, offset, size(call));
    }
  }

  /** The pages make up one complete list in the requested order, as if there had been one query. */
  lemma FollowingTokensListsEverything(s: Search, orders: seq<Order>, docs: set<Doc>, listing: nat -> seq<Doc>,
      size: nat -> nat)
    requires forall d <- docs :: Sortable(s, Asked(s, orders), d)
    requires forall a, b :: a in docs && b in docs && a.id == b.id ==> a == b
    requires forall i :: IsListing(docs, SentKeys(s, orders), listing(i)) && size(i) > 0
    ensures Progresses(SearchServer(s, listing, size), |listing(0)|)
    ensures var all := Flatten(Pages(SearchServer(s, listing, size), |listing(0)|, 0, 0));
            && all == listing(0)
            && IsListing(docs, SentKeys(s, orders), all)
            && forall i, j :: 0 <= i < j < |all| ==> Requested(Asked(s, orders), all[i], all[j]) < 0
  {
    var l := listing(0);
    assert IsListing(docs, SentKeys(s, orders), l);
    forall i ensures listing(i) == l && size(i) > 0 {
      SearchIsDeterministic(s, orders, docs, listing(i), l);
    }
    SearchIsDeterministic(s, orders, docs, l, l);
    SearchServerCuts(s, listing, size, l);
    PagesFlatten(SearchServer(s, listing, size), if s.Traces? then FullPage else LimitPlusOne, l, size, 0, 0);
    assert l[0..] == l;
  }
}

/**
 * What the payouts listing guarantees, for one request and across the
 * requests a client makes by following next-page keys: page size, ownership,
 * the date window, ordering, the order of validation errors, the cursor
 * bound, that consecutive pages share no row, and when following the keys
 * visits every row. Also what `show` guarantees about owners.
 */
module Pagination {
  import opened Wrappers
  import opened PaymentModel
  import opened Relation
  import opened PayoutsController

  // ---------------------------------------------------------------------
  // One request
  // ---------------------------------------------------------------------

  /** A page holds at most ResultsPerPage rows, each from the table and meeting the request's whole condition. */
  lemma ListingRows(db: seq<Payment>, owner: nat, q: Query, rule: CursorRule)
    ensures |Listing(db, owner, q, rule).payouts| <= ResultsPerPage
    ensures forall p | p in Listing(db, owner, q, rule).payouts :: p in db && Listed(p, owner, q, rule)
  {
    var rows := Matching(db, owner, q, rule);
    var kept := Take(rows, ResultsPerPage);
    WhereSelects(db, p => Listed(p, owner, q, rule));
    forall p | p in kept ensures p in rows {
      var k :| 0 <= k < |kept| && kept[k] == p;
      assert rows[k] == p;
    }
  }

  /** A successful `index` returns at most ResultsPerPage payouts, each one of the owner's displayable payouts. */
  lemma IndexReturnsOwnDisplayable(db: seq<Payment>, owner: nat, params: IndexParams, env: Env)
    requires ExpectedIndex(db, owner, params, env).Ok?
    ensures var payouts := ExpectedIndex(db, owner, params, env).page.payouts;
            |payouts| <= ResultsPerPage &&
            forall p | p in payouts :: p in db && p.owner == owner && p.displayable
  {
    ListingRows(db, owner, QueryOf(params, env), AsWritten);
  }

  /**
   * Next-page information is present exactly when more than ResultsPerPage
   * rows of the table meet the request's condition; it is then the position
   * of the last row of a full page.
   */
  lemma NextPageIffMoreRows(db: seq<Payment>, owner: nat, params: IndexParams, env: Env)
    requires ExpectedIndex(db, owner, params, env).Ok?
    ensures var page := ExpectedIndex(db, owner, params, env).page;
            var q := QueryOf(params, env);
            (page.next.Some? <==> |Where(db, p => Listed(p, owner, q, AsWritten))| > ResultsPerPage) &&
            (page.next.Some? ==> |page.payouts| == ResultsPerPage &&
                                 page.next.value == KeyOf(page.payouts[ResultsPerPage - 1]))
  {
    var q := QueryOf(params, env);
    var selected := Where(db, p => Listed(p, owner, q, AsWritten));
    assert |OrderDesc(selected)| == |selected| by {
      assert |multiset(OrderDesc(selected))| == |multiset(selected)|;
    }
  }

  /** With dates given, every returned row lies in the half-open window after <= created_at < before. */
  lemma WindowIsHalfOpen(db: seq<Payment>, owner: nat, params: IndexParams, env: Env)
    requires ExpectedIndex(db, owner, params, env).Ok?
    ensures params.after.Some? ==> env.parseDate(params.after.value).Some?
    ensures params.before.Some? ==> env.parseDate(params.before.value).Some?
    ensures forall p | p in ExpectedIndex(db, owner, params, env).page.payouts ::
              (params.after.Some? ==> p.createdAt >= env.parseDate(params.after.value).value) &&
              (params.before.Some? ==> p.createdAt < env.parseDate(params.before.value).value)
  {
    ListingRows(db, owner, QueryOf(params, env), AsWritten);
  }

  /**
   * A well-formed request whose window holds none of the owner's displayable
   * payouts is not an error: it yields an empty final page. Each bound of the
   * window applies only when given.
   */
  lemma EmptyWindowGivesEmptyPage(db: seq<Payment>, owner: nat, params: IndexParams, env: Env)
    requires ExpectedIndex(db, owner, params, env).Ok?
    requires forall p | p in db && InScope(p, owner) :: !InWindow(p, QueryOf(params, env).window)
    ensures ExpectedIndex(db, owner, params, env) == Ok(Page([], None))
  {
    WhereNone(db, p => Listed(p, owner, QueryOf(params, env), AsWritten));
  }

  /** In particular a window with `after` not before `before` holds no row, whatever the table. */
  lemma InvertedWindowGivesEmptyPage(db: seq<Payment>, owner: nat, params: IndexParams, env: Env, start: int, end: int)
    requires params.after.Some? && env.parseDate(params.after.value) == Some(start)
    requires params.before.Some? && env.parseDate(params.before.value) == Some(end)
    requires end <= start
    requires PageKeyPresent(params) ==> env.decodePageKey(params.pageKey.value).Some?
    ensures ExpectedIndex(db, owner, params, env) == Ok(Page([], None))
  {
    EmptyWindowGivesEmptyPage(db, owner, params, env);
  }

  /** With only `after` given, a start later than every payout of the owner gives an empty page. */
  lemma LateStartGivesEmptyPage(db: seq<Payment>, owner: nat, params: IndexParams, env: Env, start: int)
    requires params.after.Some? && env.parseDate(params.after.value) == Some(start)
    requires params.before.None?
    requires PageKeyPresent(params) ==> env.decodePageKey(params.pageKey.value).Some?
    requires forall p | p in db && InScope(p, owner) :: p.createdAt < start
    ensures ExpectedIndex(db, owner, params, env) == Ok(Page([], None))
  {
    EmptyWindowGivesEmptyPage(db, owner, params, env);
  }

  /**
   * The page is in listing order and holds the latest matching rows: each
   * matching row left off the page is listed after every row on it.
   */
  lemma PageHoldsLatestRows(db: seq<Payment>, owner: nat, q: Query, rule: CursorRule)
    ensures SortedDesc(Listing(db, owner, q, rule).payouts)
    ensures forall p, r | p in Listing(db, owner, q, rule).payouts && r in Matching(db, owner, q, rule)
                          && r !in Listing(db, owner, q, rule).payouts :: Precedes(p, r)
  {
    var rows := Matching(db, owner, q, rule);
    var kept := Listing(db, owner, q, rule).payouts;
    assert kept == rows[..|kept|];
    forall p, r | p in kept && r in rows && r !in kept ensures Precedes(p, r) {
      var i :| 0 <= i < |kept| && kept[i] == p;
      var k :| 0 <= k < |rows| && rows[k] == r;
      assert rows[i] == p;
    }
  }

  /**
   * Validation happens in a fixed order: a malformed `before` is reported even
   * when `after` or the page key are malformed too; then a malformed `after`;
   * then an undecodable page key. Only these three cases fail.
   */
  lemma ErrorsComeInOrder(db: seq<Payment>, owner: nat, params: IndexParams, env: Env)
    ensures params.before.Some? && env.parseDate(params.before.value).None? ==>
              ExpectedIndex(db, owner, params, env) == BadRequest(InvalidBeforeMessage)
    ensures ParseOptional(params.before, env).Some? || params.before.None? ==>
              params.after.Some? && env.parseDate(params.after.value).None? ==>
                ExpectedIndex(db, owner, params, env) == BadRequest(InvalidAfterMessage)
    ensures ParseOptional(params.before, env).Some? || params.before.None? ==>
              ParseOptional(params.after, env).Some? || params.after.None? ==>
                PageKeyPresent(params) && env.decodePageKey(params.pageKey.value).None? ==>
                  ExpectedIndex(db, owner, params, env) == BadRequest(InvalidPageKeyMessage)
    ensures ExpectedIndex(db, owner, params, env).BadRequest? <==>
              (params.before.Some? && env.parseDate(params.before.value).None?) ||
              (params.after.Some? && env.parseDate(params.after.value).None?) ||
              (PageKeyPresent(params) && env.decodePageKey(params.pageKey.value).None?)
  {
  }

  /** A blank page key is not "present": it is ignored rather than rejected. */
  lemma BlankPageKeyIsIgnored(db: seq<Payment>, owner: nat, params: IndexParams, env: Env)
    requires params.pageKey.Some? && IsBlank(params.pageKey.value)
    ensures ExpectedIndex(db, owner, params, env) == ExpectedIndex(db, owner, params.(pageKey := None), env)
  {
    assert QueryOf(params, env) == QueryOf(params.(pageKey := None), env);
  }

  /** With a page key decoding to (t, i), every returned row has created_at <= t and id < i. */
  lemma PageStaysBelowCursor(db: seq<Payment>, owner: nat, params: IndexParams, env: Env, c: Cursor)
    requires PageKeyPresent(params) && env.decodePageKey(params.pageKey.value) == Some(c)
    requires ExpectedIndex(db, owner, params, env).Ok?
    ensures forall p | p in ExpectedIndex(db, owner, params, env).page.payouts ::
              p.createdAt <= c.createdAt && p.id < c.id
  {
    ListingRows(db, owner, QueryOf(params, env), AsWritten);
  }

  // ---------------------------------------------------------------------
  // Two consecutive requests
  // ---------------------------------------------------------------------

  /**
   * Requesting again with a page key that decodes to the first page's
   * next-page position succeeds, and returns no row of the first page.
   */
  lemma NextPageRepeatsNoRow(db: seq<Payment>, owner: nat, params: IndexParams, env: Env, key: string)
    requires ExpectedIndex(db, owner, params, env).Ok?
    requires ExpectedIndex(db, owner, params, env).page.next.Some?
    requires !IsBlank(key) && env.decodePageKey(key) == ExpectedIndex(db, owner, params, env).page.next
    ensures var first := ExpectedIndex(db, owner, params, env).page;
            var second := ExpectedIndex(db, owner, params.(pageKey := Some(key)), env);
            second.Ok? && forall p | p in second.page.payouts :: p !in first.payouts
  {
    var q1 := QueryOf(params, env);
    var params2 := params.(pageKey := Some(key));
    var q2 := QueryOf(params2, env);
    var first := Listing(db, owner, q1, AsWritten);
    var c := first.next.value;
    assert q2 == Query(q1.window, Some(c));
    ListingRows(db, owner, q2, AsWritten);
    PageHoldsLatestRows(db, owner, q1, AsWritten);
    var n := |first.payouts|;
    assert c == KeyOf(first.payouts[n - 1]);
    forall p | p in first.payouts ensures !Admits(AsWritten, c, p) {
      var i :| 0 <= i < n && first.payouts[i] == p;
      if i < n - 1 {
        assert Precedes(first.payouts[i], first.payouts[n - 1]);
      }
    }
  }

  // ---------------------------------------------------------------------
  // Following next-page keys
  // ---------------------------------------------------------------------

  /**
   * The rows a client collects by requesting the page at `cursor` from
   * `pageAt` and then following each next-page position, making at most
   * `fuel` further requests.
   */
  function Follow(pageAt: Option<Cursor> -> Page, cursor: Option<Cursor>, fuel: nat): (rows: seq<Payment>)
    ensures pageAt(cursor).payouts <= rows
    decreases fuel
  {
    var page := pageAt(cursor);
    if page.next.Some? && fuel > 0 then page.payouts + Follow(pageAt, page.next, fuel - 1)
    else page.payouts
  }

  /** Following next-page keys through `index` on a fixed table, window and cursor rule: the page requested first comes first. */
  function Walk(db: seq<Payment>, owner: nat, w: Window, cursor: Option<Cursor>, rule: CursorRule, fuel: nat): (rows: seq<Payment>)
    ensures Listing(db, owner, Query(w, cursor), rule).payouts <= rows
  {
    Follow(c => Listing(db, owner, Query(w, c), rule), cursor, fuel)
  }

  /** Every row a walk collects is one of the owner's displayable payouts inside the window, however many keys are followed. */
  lemma {:induction false} WalkStaysInScope(db: seq<Payment>, owner: nat, w: Window, cursor: Option<Cursor>, rule: CursorRule, fuel: nat)
    ensures forall p | p in Walk(db, owner, w, cursor, rule, fuel) :: p in db && InScope(p, owner) && InWindow(p, w)
    decreases fuel
  {
    var page := Listing(db, owner, Query(w, cursor), rule);
    ListingRows(db, owner, Query(w, cursor), rule);
    if page.next.Some? && fuel > 0 {
      WalkUnfold(db, owner, w, cursor, rule, fuel);
      WalkStaysInScope(db, owner, w, page.next, rule, fuel - 1);
    }
  }

  /** The first page over rows `all`: up to ResultsPerPage of them, and the last one kept when more remain. */
  function FirstPageOf(all: seq<Payment>): Page {
    if |all| > ResultsPerPage then Page(all[..ResultsPerPage], Some(KeyOf(all[ResultsPerPage - 1])))
    else Page(all, None)
  }

  /** The page after row j of `all`: up to ResultsPerPage rows after j, and row j + ResultsPerPage when more remain. */
  function PageAfter(all: seq<Payment>, j: nat): Page
    requires j < |all|
  {
    if |all| - (j + 1) > ResultsPerPage then Page(all[j + 1..j + 1 + ResultsPerPage], Some(KeyOf(all[j + ResultsPerPage])))
    else Page(all[j + 1..], None)
  }

  /** Row j is the last row of a full page: j + 1 is a multiple of ResultsPerPage. */
  predicate EndsPage(j: nat) {
    (j + 1) % ResultsPerPage == 0
  }

  /** The row ending one full page is followed, ResultsPerPage rows later, by the row ending the next. */
  lemma NextPageEnd(j: nat)
    requires EndsPage(j)
    ensures EndsPage(j + ResultsPerPage)
  {
  }

  /** `pageAt` answers the position of every row that ends a full page of `all` with the page after that row. */
  ghost predicate PagesFollow(pageAt: Option<Cursor> -> Page, all: seq<Payment>) {
    forall j | 0 <= j < |all| && EndsPage(j) :: pageAt(Some(KeyOf(all[j]))) == PageAfter(all, j)
  }

  /** In `s`, the position of row j admits exactly the rows after j. */
  ghost predicate CursorExactAt(s: seq<Payment>, rule: CursorRule, j: nat) {
    j < |s| && forall k | 0 <= k < |s| :: Admits(rule, KeyOf(s[j]), s[k]) <==> j < k
  }

  /** Every position of `s` is exact. */
  ghost predicate CursorExact(s: seq<Payment>, rule: CursorRule) {
    forall j | 0 <= j < |s| :: CursorExactAt(s, rule, j)
  }

  /** The positions a client is handed, those of rows ending a full page, are exact. */
  ghost predicate ExactAtPageEnds(s: seq<Payment>, rule: CursorRule) {
    forall j | 0 <= j < |s| && EndsPage(j) :: CursorExactAt(s, rule, j)
  }

  /** The rows matching with a cursor are the rows matching without it, filtered by the cursor condition. */
  lemma MatchingAfterCursor(db: seq<Payment>, owner: nat, w: Window, rule: CursorRule, c: Cursor)
    ensures Matching(db, owner, Query(w, Some(c)), rule) ==
            Where(Matching(db, owner, Query(w, None), rule), p => Admits(rule, c, p))
  {
    var unbounded := p => Listed(p, owner, Query(w, None), rule);
    var admitted := p => Admits(rule, c, p);
    WhereOrderDesc(Where(db, unbounded), admitted);
    WhereWhere(db, unbounded, admitted, p => Listed(p, owner, Query(w, Some(c)), rule));
  }

  /** When the position of row j is exact, the rows matching at that position are the rows after j. */
  lemma MatchingAtPosition(db: seq<Payment>, owner: nat, w: Window, rule: CursorRule, j: nat)
    requires CursorExactAt(Matching(db, owner, Query(w, None), rule), rule, j)
    ensures Matching(db, owner, Query(w, Some(KeyOf(Matching(db, owner, Query(w, None), rule)[j]))), rule)
            == Matching(db, owner, Query(w, None), rule)[j + 1..]
  {
    var all := Matching(db, owner, Query(w, None), rule);
    var c := KeyOf(all[j]);
    MatchingAfterCursor(db, owner, w, rule, c);
    WhereSuffix(all, p => Admits(rule, c, p), j + 1);
  }

  /** When the position of row j is exact, the page at that position is the page after row j. */
  lemma PageAtPosition(db: seq<Payment>, owner: nat, w: Window, rule: CursorRule, j: nat)
    requires CursorExactAt(Matching(db, owner, Query(w, None), rule), rule, j)
    ensures var all := Matching(db, owner, Query(w, None), rule);
            Listing(db, owner, Query(w, Some(KeyOf(all[j]))), rule) == PageAfter(all, j)
  {
    MatchingAtPosition(db, owner, w, rule, j);
    TakeOfSuffix(Matching(db, owner, Query(w, None), rule), j + 1, ResultsPerPage);
  }

  /** The first `n` rows from position `i` on, and the last of them. */
  lemma TakeOfSuffix(s: seq<Payment>, i: nat, n: nat)
    requires i <= |s| && n > 0
    ensures |s| - i > n ==> Take(s[i..], n) == s[i..i + n] && Take(s[i..], n)[n - 1] == s[i + n - 1]
    ensures |s| - i <= n ==> Take(s[i..], n) == s[i..]
  {
  }

  /** A walk whose first page has a next-page position continues from that position. */
  lemma WalkUnfold(db: seq<Payment>, owner: nat, w: Window, cursor: Option<Cursor>, rule: CursorRule, fuel: nat)
    requires fuel > 0
    requires Listing(db, owner, Query(w, cursor), rule).next.Some?
    ensures var page := Listing(db, owner, Query(w, cursor), rule);
            Walk(db, owner, w, cursor, rule, fuel) == page.payouts + Walk(db, owner, w, page.next, rule, fuel - 1)
  {
  }

  /** A suffix splits at any later position. */
  lemma SliceSplit(s: seq<Payment>, a: nat, b: nat)
    requires a <= b <= |s|
    ensures s[a..] == s[a..b] + s[b..]
  {
  }

  /** Requests enough for more than a page of rows are enough, one request fewer, for the rows after the first page. */
  lemma FuelForRest(fuel: nat, rest: int)
    requires ResultsPerPage < rest <= (fuel + 1) * ResultsPerPage
    ensures fuel > 0 && rest - ResultsPerPage <= fuel * ResultsPerPage
  {
  }

  /** From the position of a row ending a full page, following next-page positions collects every later row, given enough requests. */
  lemma {:induction false} FollowFrom(pageAt: Option<Cursor> -> Page, all: seq<Payment>, j: nat, fuel: nat)
    requires PagesFollow(pageAt, all)
    requires j < |all| && EndsPage(j)
    requires |all| - (j + 1) <= (fuel + 1) * ResultsPerPage
    ensures Follow(pageAt, Some(KeyOf(all[j])), fuel) == all[j + 1..]
    decreases fuel
  {
    if |all| - (j + 1) > ResultsPerPage {
      FuelForRest(fuel, |all| - (j + 1));
      NextPageEnd(j);
      FollowFrom(pageAt, all, j + ResultsPerPage, fuel - 1);
      SliceSplit(all, j + 1, j + ResultsPerPage + 1);
    }
  }

  /** From the first page, following next-page positions collects all rows, given enough requests. */
  lemma FollowAll(pageAt: Option<Cursor> -> Page, all: seq<Payment>, fuel: nat)
    requires PagesFollow(pageAt, all)
    requires pageAt(None) == FirstPageOf(all)
    requires |all| <= (fuel + 1) * ResultsPerPage
    ensures Follow(pageAt, None, fuel) == all
  {
    if |all| > ResultsPerPage {
      FuelForRest(fuel, |all|);
      FollowFrom(pageAt, all, ResultsPerPage - 1, fuel - 1);
      SliceSplit(all, 0, ResultsPerPage);
    }
  }

  /**
   * When the position of every row ending a full page is exact, the walk
   * from the first page collects all matching rows in listing order.
   */
  lemma WalkVisitsAll(db: seq<Payment>, owner: nat, w: Window, rule: CursorRule, fuel: nat)
    requires ExactAtPageEnds(Matching(db, owner, Query(w, None), rule), rule)
    requires (fuel + 1) * ResultsPerPage >= |Matching(db, owner, Query(w, None), rule)|
    ensures Walk(db, owner, w, None, rule, fuel) == Matching(db, owner, Query(w, None), rule)
  {
    var all := Matching(db, owner, Query(w, None), rule);
    var pageAt := c => Listing(db, owner, Query(w, c), rule);
    forall j | 0 <= j < |all| && EndsPage(j) ensures pageAt(Some(KeyOf(all[j]))) == PageAfter(all, j) {
      PageAtPosition(db, owner, w, rule, j);
    }
    assert pageAt(None) == FirstPageOf(all);
    FollowAll(pageAt, all, fuel);
  }

  /** Listing order, unique ids: the lexicographic rule admits exactly the rows after the position. */
  lemma LexicographicCursorIsExact(db: seq<Payment>, owner: nat, w: Window)
    requires UniqueIds(db)
    ensures CursorExact(Matching(db, owner, Query(w, None), Lexicographic), Lexicographic)
  {
    var selected := Where(db, p => Listed(p, owner, Query(w, None), Lexicographic));
    WhereKeepsIdsUnique(db, p => Listed(p, owner, Query(w, None), Lexicographic));
    OrderDescKeepsIdsUnique(selected);
    var all := OrderDesc(selected);
    forall j, k | 0 <= j < |all| && 0 <= k < |all|
      ensures Admits(Lexicographic, KeyOf(all[j]), all[k]) <==> j < k
    {
      if j < k {
        assert Precedes(all[j], all[k]) && all[j].id != all[k].id;
      } else if k < j {
        assert Precedes(all[k], all[j]) && all[j].id != all[k].id;
      }
    }
  }

  /**
   * Listing order, unique ids, and ids handed out in created_at order: the
   * condition as written admits exactly the rows after the position.
   */
  lemma AsWrittenCursorIsExact(db: seq<Payment>, owner: nat, w: Window)
    requires UniqueIds(db) && IdsFollowCreation(db)
    ensures CursorExact(Matching(db, owner, Query(w, None), AsWritten), AsWritten)
  {
    var selected := Where(db, p => Listed(p, owner, Query(w, None), AsWritten));
    WhereSelects(db, p => Listed(p, owner, Query(w, None), AsWritten));
    WhereKeepsIdsUnique(db, p => Listed(p, owner, Query(w, None), AsWritten));
    OrderDescKeepsIdsUnique(selected);
    var all := OrderDesc(selected);
    forall j, k | 0 <= j < |all| && 0 <= k < |all|
      ensures Admits(AsWritten, KeyOf(all[j]), all[k]) <==> j < k
    {
      assert all[j] in db && all[k] in db;
      if j < k {
        assert Precedes(all[j], all[k]) && all[j].id != all[k].id;
      } else if k < j {
        assert Precedes(all[k], all[j]);
      }
    }
  }

  /**
   * Corrected rule: with unique ids, requesting the first page and following
   * next-page keys, ceil(K / ResultsPerPage) requests in all, visits each of
   * the K matching rows exactly once, in listing order.
   */
  lemma LexicographicWalkVisitsAll(db: seq<Payment>, owner: nat, w: Window, fuel: nat)
    requires UniqueIds(db)
    requires (fuel + 1) * ResultsPerPage >= |Where(db, p => Listed(p, owner, Query(w, None), Lexicographic))|
    ensures var visited := Walk(db, owner, w, None, Lexicographic, fuel);
            SortedDesc(visited) &&
            multiset(visited) == multiset(Where(db, p => Listed(p, owner, Query(w, None), Lexicographic)))
  {
    var selected := Where(db, p => Listed(p, owner, Query(w, None), Lexicographic));
    assert |multiset(OrderDesc(selected))| == |multiset(selected)|;
    LexicographicCursorIsExact(db, owner, w);
    WalkVisitsAll(db, owner, w, Lexicographic, fuel);
  }

  /**
   * Condition as written: the same completeness holds when ids were handed
   * out in created_at order. This is sufficient, not necessary: see
   * AsWrittenExactAt and NextPageTest.
   */
  lemma AsWrittenWalkVisitsAllWhenIdsFollowCreation(db: seq<Payment>, owner: nat, w: Window, fuel: nat)
    requires UniqueIds(db) && IdsFollowCreation(db)
    requires (fuel + 1) * ResultsPerPage >= |Where(db, p => Listed(p, owner, Query(w, None), AsWritten))|
    ensures var visited := Walk(db, owner, w, None, AsWritten, fuel);
            SortedDesc(visited) &&
            multiset(visited) == multiset(Where(db, p => Listed(p, owner, Query(w, None), AsWritten)))
  {
    var selected := Where(db, p => Listed(p, owner, Query(w, None), AsWritten));
    assert |multiset(OrderDesc(selected))| == |multiset(selected)|;
    AsWrittenCursorIsExact(db, owner, w);
    WalkVisitsAll(db, owner, w, AsWritten, fuel);
  }

  /**
   * In listing order with unique ids, the position of row j under the
   * condition as written never admits an earlier row, and admits a later row
   * exactly when its id is below row j's. So the position is exact precisely
   * when every later row has a smaller id.
   */
  lemma AsWrittenExactAt(s: seq<Payment>, j: nat)
    requires SortedDesc(s) && UniqueIds(s) && j < |s|
    ensures forall k | 0 <= k < j :: !Admits(AsWritten, KeyOf(s[j]), s[k])
    ensures CursorExactAt(s, AsWritten, j) <==> forall k | j < k < |s| :: s[k].id < s[j].id
  {
    forall k | 0 <= k < j ensures !Admits(AsWritten, KeyOf(s[j]), s[k]) {
      assert Precedes(s[k], s[j]) && s[k].id != s[j].id;
    }
    forall k | j < k < |s| ensures Admits(AsWritten, KeyOf(s[j]), s[k]) <==> s[k].id < s[j].id {
      assert Precedes(s[j], s[k]);
    }
  }

  /** The first row never ends a full page, so exactness after it covers every page end. */
  lemma PageEndsAfterFirst(s: seq<Payment>, rule: CursorRule)
    requires forall j | 1 <= j < |s| :: CursorExactAt(s, rule, j)
    ensures ExactAtPageEnds(s, rule)
  {
    forall j | 0 <= j < |s| && EndsPage(j) ensures CursorExactAt(s, rule, j) {
      assert j != 0;
    }
  }

  /** The seller and the other seller of the listing tests. */
  const Seller: nat := 1
  const OtherSeller: nat := 2

  /** `n` displayable payouts of the seller created together at time `t`, with ids 3 to n + 2 in creation order. */
  function Batch(n: nat, t: int): seq<Payment> {
    if n == 0 then [] else Batch(n - 1, t) + [Payment(n + 2, Seller, true, t)]
  }

  /** Row i of a batch is the payout with id i + 3. */
  lemma {:induction false} BatchRows(n: nat, t: int)
    ensures |Batch(n, t)| == n
    ensures forall i | 0 <= i < n :: Batch(n, t)[i] == Payment(i + 3, Seller, true, t)
  {
    if n > 0 {
      BatchRows(n - 1, t);
    }
  }

  /**
   * The table of the listing tests, with time counted in days from now: the
   * seller's payout (id 1) and the other seller's (id 2), both a day old,
   * then `n` more payouts of the seller created together `age` days ago.
   */
  function TestTable(n: nat, age: int): seq<Payment> {
    [Payment(1, Seller, true, -1), Payment(2, OtherSeller, true, -1)] + Batch(n, -age)
  }

  /** The seller's unbounded listing over a test table. */
  function TestListing(n: nat, age: int): seq<Payment> {
    Matching(TestTable(n, age), Seller, Query(Window(None, None), None), AsWritten)
  }

  /** The seller's listing over a test table orders its rows: the payout of a day ago, then the batch. */
  lemma TestTableSelects(n: nat, age: int)
    ensures TestListing(n, age) == OrderDesc([Payment(1, Seller, true, -1)] + Batch(n, -age))
  {
    var other := Payment(2, OtherSeller, true, -1);
    var batch := Batch(n, -age);
    var keep := p => Listed(p, Seller, Query(Window(None, None), None), AsWritten);
    BatchRows(n, -age);
    assert TestTable(n, age) == [Payment(1, Seller, true, -1)] + ([other] + batch);
    WhereCons(Payment(1, Seller, true, -1), [other] + batch, keep);
    WhereCons(other, batch, keep);
    forall p | p in batch ensures keep(p) {
      var i :| 0 <= i < |batch| && batch[i] == p;
    }
    WhereAll(batch, keep);
    assert !keep(other);
    assert Where([other] + batch, keep) == batch;
    assert keep(Payment(1, Seller, true, -1));
    assert TestListing(n, age) == OrderDesc(Where(TestTable(n, age), keep));
  }

  /**
   * Rows in listing order with unique ids, each either `x` or created at the
   * earlier time t: every position after the first is exact under the
   * condition as written.
   */
  lemma OneNewerRowThenBatch(s: seq<Payment>, x: Payment, t: int)
    requires SortedDesc(s) && UniqueIds(s)
    requires t < x.createdAt
    requires forall p | p in s :: p == x || p.createdAt == t
    ensures forall j | 1 <= j < |s| :: CursorExactAt(s, AsWritten, j)
  {
    forall j | 1 <= j < |s| ensures s[j].createdAt == t {
      assert s[0] in s && s[j] in s && Precedes(s[0], s[j]);
    }
    forall j | 1 <= j < |s| ensures CursorExactAt(s, AsWritten, j) {
      forall k | j < k < |s| ensures s[k].id < s[j].id {
        assert Precedes(s[j], s[k]);
      }
      AsWrittenExactAt(s, j);
    }
  }

  /** The seller's n + 1 rows of a test table have distinct ids, and all but the payout of a day ago share the batch's time. */
  lemma NewestThenBatch(n: nat, age: int)
    ensures var rows := [Payment(1, Seller, true, -1)] + Batch(n, -age);
            |rows| == n + 1 && UniqueIds(rows) && forall p | p in rows :: p == Payment(1, Seller, true, -1) || p.createdAt == -age
  {
    BatchRows(n, -age);
  }

  /**
   * On a test table whose batch is older than a day, the seller's listing has
   * n + 1 rows and every position but the first is exact under the condition
   * as written.
   */
  lemma TestTableListing(n: nat, age: int)
    requires age > 1
    ensures |TestListing(n, age)| == n + 1
    ensures forall j | 1 <= j < |TestListing(n, age)| :: CursorExactAt(TestListing(n, age), AsWritten, j)
  {
    TestTableSelects(n, age);
    OrderedTestRows(TestListing(n, age), n, age);
  }

  /** The seller's rows of a test table, put in listing order, with the batch older than a day. */
  lemma OrderedTestRows(all: seq<Payment>, n: nat, age: int)
    requires age > 1
    requires all == OrderDesc([Payment(1, Seller, true, -1)] + Batch(n, -age))
    ensures |all| == n + 1
    ensures forall j | 1 <= j < |all| :: CursorExactAt(all, AsWritten, j)
  {
    var newest := Payment(1, Seller, true, -1);
    var selected := [newest] + Batch(n, -age);
    NewestThenBatch(n, age);
    OrderDescKeepsIdsUnique(selected);
    assert |all| == |multiset(all)| == |multiset(selected)| == n + 1;
    forall p | p in all ensures p == newest || p.createdAt == -age {
      assert p in selected;
    }
    OneNewerRowThenBatch(all, newest, -age);
  }

  /** In a test table with a batch older than a day, the payout of a day ago has a smaller id than the batch: ids do not follow creation. */
  lemma TestTableIdsDoNotFollowCreation(n: nat, age: int)
    requires age > 1 && n > 0
    ensures !IdsFollowCreation(TestTable(n, age))
  {
    var db := TestTable(n, age);
    BatchRows(n, -age);
    assert db[0] in db && db[2] in db && db[2] == Payment(3, Seller, true, -age);
  }

  /**
   * The test with eleven payouts: the seller's payout of a day ago has the
   * smallest id, ten more created two days ago have larger ids. The first page
   * holds the first ten rows in listing order and ends at the tenth; the page
   * at that key holds the eleventh and ends the listing; following the key
   * once collects all eleven.
   */
  lemma NextPageTest()
    ensures var db := TestTable(10, 2);
            var all := Matching(db, Seller, Query(Window(None, None), None), AsWritten);
            !IdsFollowCreation(db) && |all| == 11 &&
            Listing(db, Seller, Query(Window(None, None), None), AsWritten) == Page(all[..10], Some(KeyOf(all[9]))) &&
            Listing(db, Seller, Query(Window(None, None), Some(KeyOf(all[9]))), AsWritten) == Page(all[10..], None) &&
            Walk(db, Seller, Window(None, None), None, AsWritten, 1) == all
  {
    var db := TestTable(10, 2);
    TestTableListing(10, 2);
    TestTableIdsDoNotFollowCreation(10, 2);
    PageAtPosition(db, Seller, Window(None, None), AsWritten, 9);
    PageEndsAfterFirst(Matching(db, Seller, Query(Window(None, None), None), AsWritten), AsWritten);
    WalkVisitsAll(db, Seller, Window(None, None), AsWritten, 1);
  }

  /**
   * The test with thirty-one payouts: given the key of row 10 of the listing
   * (counting from 0), the page holds rows 11 to 20 and its next key is that
   * of row 20.
   */
  lemma LaterPagesTest()
    ensures var db := TestTable(30, 3);
            var all := Matching(db, Seller, Query(Window(None, None), None), AsWritten);
            |all| == 31 &&
            Listing(db, Seller, Query(Window(None, None), Some(KeyOf(all[10]))), AsWritten)
              == Page(all[11..21], Some(KeyOf(all[20])))
  {
    TestTableListing(30, 3);
    PageAtPosition(TestTable(30, 3), Seller, Window(None, None), AsWritten, 10);
  }

  /** Ten payouts created at time 100 with ids 11 down to 2, then one with the larger id 20 created earlier, at 50. */
  function SkipExample(): seq<Payment> {
    [ Payment(11, 1, true, 100), Payment(10, 1, true, 100), Payment(9, 1, true, 100),
      Payment(8, 1, true, 100), Payment(7, 1, true, 100), Payment(6, 1, true, 100),
      Payment(5, 1, true, 100), Payment(4, 1, true, 100), Payment(3, 1, true, 100),
      Payment(2, 1, true, 100), Payment(20, 1, true, 50) ]
  }

  /** Ten rows at time 100 with ids 11 down to 2, then the row with id 20 at time 50. */
  lemma SkipExampleRows()
    ensures |SkipExample()| == 11
    ensures forall i | 0 <= i < 10 :: SkipExample()[i] == Payment(11 - i, 1, true, 100)
    ensures SkipExample()[10] == Payment(20, 1, true, 50)
    ensures Payment(20, 1, true, 50) !in SkipExample()[..10]
  {
  }

  /** The example rows are already in listing order, and all of them match an unbounded request. */
  lemma SkipExampleMatchesAll(rule: CursorRule)
    ensures Matching(SkipExample(), 1, Query(Window(None, None), None), rule) == SkipExample()
  {
    var db := SkipExample();
    SkipExampleRows();
    forall i, j | 0 <= i < j < |db| ensures Precedes(db[i], db[j]) {
    }
    WhereAll(db, p => Listed(p, 1, Query(Window(None, None), None), rule));
    OrderDescOfSorted(db);
  }

  /** The first page holds the ten rows at time 100 and ends at (100, 2). */
  lemma SkipExampleFirstPage(rule: CursorRule)
    ensures Listing(SkipExample(), 1, Query(Window(None, None), None), rule)
            == Page(SkipExample()[..10], Some(Cursor(100, 2)))
  {
    SkipExampleMatchesAll(rule);
    SkipExampleRows();
  }

  /** Under the condition as written, no row of the example lies below (100, 2). */
  lemma SkipExampleAsWrittenSecondPage()
    ensures Listing(SkipExample(), 1, Query(Window(None, None), Some(Cursor(100, 2))), AsWritten) == Page([], None)
  {
    var db := SkipExample();
    SkipExampleRows();
    WhereNone(db, p => Listed(p, 1, Query(Window(None, None), Some(Cursor(100, 2))), AsWritten));
  }

  /** Under the lexicographic rule, the row with id 20 lies below (100, 2). */
  lemma SkipExampleLexicographicSecondPage()
    ensures Listing(SkipExample(), 1, Query(Window(None, None), Some(Cursor(100, 2))), Lexicographic)
            == Page([Payment(20, 1, true, 50)], None)
  {
    var db := SkipExample();
    SkipExampleRows();
    WhereSuffix(db, p => Listed(p, 1, Query(Window(None, None), Some(Cursor(100, 2))), Lexicographic), 10);
    assert db[10..] == [Payment(20, 1, true, 50)];
    assert OrderDesc([Payment(20, 1, true, 50)]) == [Payment(20, 1, true, 50)];
  }

  /** A row missing from a first page whose announced position has an empty page is never collected. */
  lemma RowNeverWalked(db: seq<Payment>, owner: nat, w: Window, rule: CursorRule, c: Cursor, x: Payment)
    requires Listing(db, owner, Query(w, None), rule).next == Some(c)
    requires Listing(db, owner, Query(w, Some(c)), rule) == Page([], None)
    requires x !in Listing(db, owner, Query(w, None), rule).payouts
    ensures forall fuel: nat :: x !in Walk(db, owner, w, None, rule, fuel)
  {
    forall fuel: nat ensures x !in Walk(db, owner, w, None, rule, fuel) {
      WalkEndsAtEmptyPage(db, owner, w, rule, c, fuel);
    }
  }

  /** A walk whose first page announces a position with an empty page collects only that first page. */
  lemma WalkEndsAtEmptyPage(db: seq<Payment>, owner: nat, w: Window, rule: CursorRule, c: Cursor, fuel: nat)
    requires Listing(db, owner, Query(w, None), rule).next == Some(c)
    requires Listing(db, owner, Query(w, Some(c)), rule) == Page([], None)
    ensures Walk(db, owner, w, None, rule, fuel) == Listing(db, owner, Query(w, None), rule).payouts
  {
    if fuel > 0 {
      assert Walk(db, owner, w, Some(c), rule, fuel - 1) == [];
      WalkUnfold(db, owner, w, None, rule, fuel);
    }
  }

  /** The row with id 20 matches an unbounded request under either rule. */
  lemma SkipExampleLateRowMatches(rule: CursorRule)
    ensures Payment(20, 1, true, 50) in Matching(SkipExample(), 1, Query(Window(None, None), None), rule)
  {
    SkipExampleRows();
    SkipExampleMatchesAll(rule);
  }

  /**
   * The condition as written skips a row: the row with id 20 matches the
   * request (SkipExampleLateRowMatches), but the first page ends at (100, 2)
   * without it and the page at (100, 2) is empty, so the row is never
   * returned however many next-page keys the client follows.
   */
  lemma AsWrittenSkipsRow()
    ensures forall fuel: nat :: Payment(20, 1, true, 50) !in Walk(SkipExample(), 1, Window(None, None), None, AsWritten, fuel)
  {
    SkipExampleRows();
    SkipExampleFirstPage(AsWritten);
    SkipExampleAsWrittenSecondPage();
    RowNeverWalked(SkipExample(), 1, Window(None, None), AsWritten, Cursor(100, 2), Payment(20, 1, true, 50));
  }

  /** On the same rows, the lexicographic rule returns the row with id 20 on the second request. */
  lemma LexicographicReturnsSkippedRow()
    ensures Walk(SkipExample(), 1, Window(None, None), None, Lexicographic, 1)
            == SkipExample()[..10] + [Payment(20, 1, true, 50)]
  {
    SkipExampleFirstPage(Lexicographic);
    SkipExampleLexicographicSecondPage();
    WalkUnfold(SkipExample(), 1, Window(None, None), None, Lexicographic, 1);
  }

  // ---------------------------------------------------------------------
  // show
  // ---------------------------------------------------------------------

  /** With unique ids, `show` finds exactly the owner's row the external id resolves to. */
  lemma ShowFindsOwnPayout(db: seq<Payment>, owner: nat, externalId: string, env: Env, p: Payment)
    requires UniqueIds(db)
    requires p in db && p.owner == owner && env.decodeExternalId(externalId) == Some(p.id)
    ensures Show(db, owner, externalId, env) == Found(p)
  {
    var found := Show(db, owner, externalId, env).payout;
    var i :| 0 <= i < |db| && db[i] == p;
    var j :| 0 <= j < |db| && db[j] == found;
    if i < j {
      assert db[i].id != db[j].id;
    } else if j < i {
      assert db[j].id != db[i].id;
    }
  }

  /** Another owner's payout and an id that resolves to nothing give the same not-found answer. */
  lemma ShowHidesOtherOwners(db: seq<Payment>, owner: nat, externalId: string, env: Env)
    requires forall p | p in db && env.decodeExternalId(externalId) == Some(p.id) :: p.owner != owner
    ensures Show(db, owner, externalId, env) == NotFound
  {
  }
}

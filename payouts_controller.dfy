/**
 * Api::V2::PayoutsController: `index`, a cursor-paginated listing of the
 * current owner's payouts, and `show`, a lookup confined to the owner's own
 * payouts. The database is a sequence of rows; the collaborators whose code
 * lies outside the controller (date parsing, page-key decoding, external-id
 * decoding) are supplied as functions in an `Env`.
 */
module PayoutsController {
  import opened Wrappers
  import opened PaymentModel
  import opened Relation

  /** The fixed page size; clients cannot change it. */
  const ResultsPerPage: nat := 10

  const InvalidBeforeMessage: string :=
    "Invalid date format provided in field 'before'. Dates must be in the format YYYY-MM-DD."
  const InvalidAfterMessage: string :=
    "Invalid date format provided in field 'after'. Dates must be in the format YYYY-MM-DD."
  const InvalidPageKeyMessage: string := "Invalid page_key."

  /**
   * The collaborators the controller calls but does not define:
   * - parseDate: `Date.strptime(s, "%Y-%m-%d")`, giving the instant its day starts,
   *   or None where it raises ArgumentError;
   * - decodePageKey: `decode_page_key`, or None where it raises ArgumentError;
   * - decodeExternalId: the internal id an external id stands for, or None.
   */
  datatype Env = Env(
    parseDate: string -> Option<int>,
    decodePageKey: string -> Option<Cursor>,
    decodeExternalId: string -> Option<nat>)

  /** The query parameters of `index`; None is a parameter that was not sent. */
  datatype IndexParams = IndexParams(before: Option<string>, after: Option<string>, pageKey: Option<string>)

  /** The date window: `created_at >= start` and `created_at < end`, each only when given. */
  datatype Window = Window(start: Option<int>, end: Option<int>)

  /** The validated request: a window and, when a page key was sent, the cursor it decodes to. */
  datatype Query = Query(window: Window, cursor: Option<Cursor>)

  /**
   * Which rows a cursor lets through: AsWritten is the condition the controller
   * uses, Lexicographic is "strictly after the cursor in listing order".
   */
  datatype CursorRule = AsWritten | Lexicographic

  /** One page of payouts and, when there are more, the boundary row the next page key encodes. */
  datatype Page = Page(payouts: seq<Payment>, next: Option<Cursor>)

  datatype IndexResponse = BadRequest(message: string) | Ok(page: Page)

  datatype ShowResponse = Found(payout: Payment) | NotFound

  /** Rails `blank?` on a string: empty or whitespace only. */
  predicate IsBlank(s: string) {
    forall i | 0 <= i < |s| :: s[i] in {' ', '\t', '\n', '\U{B}', '\U{C}', '\r'}
  }

  /** `params[:page_key].present?` */
  predicate PageKeyPresent(params: IndexParams) {
    params.pageKey.Some? && !IsBlank(params.pageKey.value)
  }

  /** The row is one of `owner.payments.displayable`. */
  predicate InScope(p: Payment, owner: nat) {
    p.owner == owner && p.displayable
  }

  predicate InWindow(p: Payment, w: Window) {
    (w.start.Some? ==> p.createdAt >= w.start.value) && (w.end.Some? ==> p.createdAt < w.end.value)
  }

  predicate Admits(rule: CursorRule, c: Cursor, p: Payment) {
    match rule
    case AsWritten => p.createdAt <= c.createdAt && p.id < c.id
    case Lexicographic => p.createdAt < c.createdAt || (p.createdAt == c.createdAt && p.id < c.id)
  }

  /** The whole condition a listed row meets: scope, window and cursor, joined by AND. */
  predicate Listed(p: Payment, owner: nat, q: Query, rule: CursorRule) {
    InScope(p, owner) && InWindow(p, q.window) && (q.cursor.Some? ==> Admits(rule, q.cursor.value, p))
  }

  /** All rows meeting the condition, in listing order. */
  function Matching(db: seq<Payment>, owner: nat, q: Query, rule: CursorRule): seq<Payment> {
    OrderDesc(Where(db, p => Listed(p, owner, q, rule)))
  }

  /** The page for a validated request: the first ResultsPerPage matching rows, and the last of them when more remain. */
  function Listing(db: seq<Payment>, owner: nat, q: Query, rule: CursorRule): Page {
    var rows := Matching(db, owner, q, rule);
    var kept := Take(rows, ResultsPerPage);
    Page(kept, if |rows| > ResultsPerPage then Some(KeyOf(kept[|kept| - 1])) else None)
  }

  function ParseOptional(s: Option<string>, env: Env): Option<int> {
    if s.Some? then env.parseDate(s.value) else None
  }

  function QueryOf(params: IndexParams, env: Env): Query {
    Query(Window(ParseOptional(params.after, env), ParseOptional(params.before, env)),
          if PageKeyPresent(params) then env.decodePageKey(params.pageKey.value) else None)
  }

  /**
   * What `index` answers, stated declaratively: the first failing check in the
   * order before, after, page_key; otherwise the page of matching rows.
   */
  function ExpectedIndex(db: seq<Payment>, owner: nat, params: IndexParams, env: Env): IndexResponse {
    if params.before.Some? && env.parseDate(params.before.value).None? then
      BadRequest(InvalidBeforeMessage)
    else if params.after.Some? && env.parseDate(params.after.value).None? then
      BadRequest(InvalidAfterMessage)
    else if PageKeyPresent(params) && env.decodePageKey(params.pageKey.value).None? then
      BadRequest(InvalidPageKeyMessage)
    else
      Ok(Listing(db, owner, QueryOf(params, env), AsWritten))
  }

  /** `filter_payouts`: the owner's displayable payouts inside the window, in listing order. */
  function FilterPayouts(db: seq<Payment>, owner: nat, startDate: Option<int>, endDate: Option<int>): (r: seq<Payment>)
    ensures r == OrderDesc(Where(db, p => InScope(p, owner) && InWindow(p, Window(startDate, endDate))))
  {
    var scoped := Where(db, p => InScope(p, owner));
    var afterStart := if startDate.Some? then Where(scoped, (p: Payment) => p.createdAt >= startDate.value) else scoped;
    var beforeEnd := if endDate.Some? then Where(afterStart, (p: Payment) => p.createdAt < endDate.value) else afterStart;
    FilterPayoutsSelects(db, owner, startDate, endDate, scoped, afterStart, beforeEnd);
    OrderDesc(beforeEnd)
  }

  /** The chain of `where`s in `filter_payouts` selects the rows of one combined condition. */
  lemma FilterPayoutsSelects(db: seq<Payment>, owner: nat, startDate: Option<int>, endDate: Option<int>,
                             scoped: seq<Payment>, afterStart: seq<Payment>, beforeEnd: seq<Payment>)
    requires scoped == Where(db, p => InScope(p, owner))
    requires afterStart == if startDate.Some? then Where(scoped, (p: Payment) => p.createdAt >= startDate.value) else scoped
    requires beforeEnd == if endDate.Some? then Where(afterStart, (p: Payment) => p.createdAt < endDate.value) else afterStart
    ensures beforeEnd == Where(db, p => InScope(p, owner) && InWindow(p, Window(startDate, endDate)))
  {
    var w1 := Window(startDate, None);
    var w2 := Window(startDate, endDate);
    if startDate.Some? {
      WhereWhere(db, p => InScope(p, owner), (p: Payment) => p.createdAt >= startDate.value, p => InScope(p, owner) && InWindow(p, w1));
    } else {
      WhereCongruent(db, p => InScope(p, owner), p => InScope(p, owner) && InWindow(p, w1));
    }
    if endDate.Some? {
      WhereWhere(db, p => InScope(p, owner) && InWindow(p, w1), (p: Payment) => p.createdAt < endDate.value,
                 p => InScope(p, owner) && InWindow(p, w2));
    } else {
      WhereCongruent(db, p => InScope(p, owner) && InWindow(p, w1), p => InScope(p, owner) && InWindow(p, w2));
    }
  }

  /**
   * `index`, step by step as the controller runs it: validate `before`, then
   * `after`, then `page_key`, returning at the first failure; then filter,
   * apply the cursor condition, fetch one row more than a page, note whether
   * there is a next page, cut to a page, and take the last row as the boundary.
   */
  method Index(db: seq<Payment>, owner: nat, params: IndexParams, env: Env) returns (response: IndexResponse)
    ensures response == ExpectedIndex(db, owner, params, env)
  {
    var endDate: Option<int> := None;
    if params.before.Some? {
      endDate := env.parseDate(params.before.value);
      if endDate.None? {
        return BadRequest(InvalidBeforeMessage);
      }
    }

    var startDate: Option<int> := None;
    if params.after.Some? {
      startDate := env.parseDate(params.after.value);
      if startDate.None? {
        return BadRequest(InvalidAfterMessage);
      }
    }

    var wherePageData: Option<Cursor> := None;
    if PageKeyPresent(params) {
      wherePageData := env.decodePageKey(params.pageKey.value);
      if wherePageData.None? {
        return BadRequest(InvalidPageKeyMessage);
      }
    }

    ghost var q := Query(Window(startDate, endDate), wherePageData);
    assert q == QueryOf(params, env);

    var payouts := FilterPayouts(db, owner, startDate, endDate);
    if wherePageData.Some? {
      var c := wherePageData.value;
      var keep := p => Admits(AsWritten, c, p);
      CursorSelectsMatching(db, owner, q, keep);
      payouts := Where(payouts, keep);
    } else {
      NoCursorSelectsMatching(db, owner, q);
    }
    assert payouts == Matching(db, owner, q, AsWritten);
    ghost var selected := payouts;
    payouts := Take(payouts, ResultsPerPage + 1);

    var hasNextPage := |payouts| > ResultsPerPage;
    payouts := Take(payouts, ResultsPerPage);
    var next := if hasNextPage then Some(KeyOf(payouts[|payouts| - 1])) else None;
    response := Ok(Page(payouts, next));
    TakeOfTake(selected, ResultsPerPage + 1, ResultsPerPage);
  }

  /** Applying the cursor condition to the output of `filter_payouts` yields exactly the matching rows. */
  lemma CursorSelectsMatching(db: seq<Payment>, owner: nat, q: Query, keep: Payment -> bool)
    requires q.cursor.Some?
    requires forall p :: keep(p) == Admits(AsWritten, q.cursor.value, p)
    ensures Where(FilterPayouts(db, owner, q.window.start, q.window.end), keep) == Matching(db, owner, q, AsWritten)
  {
    var w := Window(q.window.start, q.window.end);
    assert w == q.window;
    var inside := p => InScope(p, owner) && InWindow(p, w);
    WhereOrderDesc(Where(db, inside), keep);
    WhereWhere(db, inside, keep, p => Listed(p, owner, q, AsWritten));
  }

  /** Without a page key, `filter_payouts` yields exactly the matching rows. */
  lemma NoCursorSelectsMatching(db: seq<Payment>, owner: nat, q: Query)
    requires q.cursor.None?
    ensures FilterPayouts(db, owner, q.window.start, q.window.end) == Matching(db, owner, q, AsWritten)
  {
    var w := Window(q.window.start, q.window.end);
    assert w == q.window;
    WhereCongruent(db, p => InScope(p, owner) && InWindow(p, w), p => Listed(p, owner, q, AsWritten));
  }

  /** The first of `db`'s rows that belongs to `owner` and has primary key `id`. */
  function FirstOwned(db: seq<Payment>, owner: nat, id: nat): (r: Option<Payment>)
    ensures r.Some? ==> r.value in db && r.value.owner == owner && r.value.id == id
    ensures r.None? <==> forall p | p in db :: !(p.owner == owner && p.id == id)
  {
    if db == [] then None
    else if db[0].owner == owner && db[0].id == id then Some(db[0])
    else
      assert db == [db[0]] + db[1..];
      FirstOwned(db[1..], owner, id)
  }

  /** `show`: `owner.payments.find_by_external_id(id)`, answered as found or not found. */
  function Show(db: seq<Payment>, owner: nat, externalId: string, env: Env): (r: ShowResponse)
    ensures r.Found? <==> exists p :: p in db && p.owner == owner && env.decodeExternalId(externalId) == Some(p.id)
    ensures r.Found? ==> r.payout in db && r.payout.owner == owner
                         && env.decodeExternalId(externalId) == Some(r.payout.id)
  {
    match env.decodeExternalId(externalId)
    case None => NotFound
    case Some(id) =>
      match FirstOwned(db, owner, id)
      case Some(p) => Found(p)
      case None => NotFound
  }
}

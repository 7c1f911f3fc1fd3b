/**
 * The relation operations the payouts controller chains together, as
 * functions on sequences of rows: `where` (Where), `order(created_at: :desc,
 * id: :desc)` (OrderDesc), and `limit(n)` / `first(n)` (Take). The lemmas
 * say how they compose; in particular a `where` applied after `order` gives
 * the same rows as the `where` applied before it.
 */
module Relation {
  import opened PaymentModel

  /** `relation.where(cond)`: the rows satisfying `keep`, in their original order. */
  function Where(s: seq<Payment>, keep: Payment -> bool): (r: seq<Payment>)
    ensures |r| <= |s|
  {
    if s == [] then []
    else
      assert s == [s[0]] + s[1..];
      (if keep(s[0]) then [s[0]] else []) + Where(s[1..], keep)
  }

  /** `where` selects exactly the rows of `s` that satisfy `keep`. */
  lemma {:induction false} WhereSelects(s: seq<Payment>, keep: Payment -> bool)
    ensures forall p :: p in Where(s, keep) <==> p in s && keep(p)
  {
    if s != [] {
      WhereSelects(s[1..], keep);
      assert s == [s[0]] + s[1..];
    }
  }

  /** In rows in listing order, the first row is listed no later than any other. */
  lemma HeadPrecedesRest(s: seq<Payment>)
    requires SortedDesc(s) && s != []
    ensures forall p :: p in s[1..] ==> Precedes(s[0], p)
  {
    forall p | p in s[1..] ensures Precedes(s[0], p) {
      var k :| 0 <= k < |s[1..]| && s[1..][k] == p;
      assert s[k + 1] == p;
    }
  }

  /** `where` keeps rows in listing order. */
  lemma {:induction false} WhereKeepsOrder(s: seq<Payment>, keep: Payment -> bool)
    requires SortedDesc(s)
    ensures SortedDesc(Where(s, keep))
  {
    if s != [] {
      WhereKeepsOrder(s[1..], keep);
      WhereSelects(s[1..], keep);
      HeadPrecedesRest(s);
    }
  }

  /** `where` keeps the ids unique. */
  lemma {:induction false} WhereKeepsIdsUnique(s: seq<Payment>, keep: Payment -> bool)
    requires UniqueIds(s)
    ensures UniqueIds(Where(s, keep))
  {
    if s != [] {
      WhereKeepsIdsUnique(s[1..], keep);
      WhereSelects(s[1..], keep);
      forall p | p in s[1..] ensures p.id != s[0].id {
        var k :| 0 <= k < |s[1..]| && s[1..][k] == p;
        assert s[k + 1] == p;
      }
    }
  }

  /** `where` on a row put in front of `s` keeps that row exactly when the condition holds. */
  lemma WhereCons(x: Payment, s: seq<Payment>, keep: Payment -> bool)
    ensures Where([x] + s, keep) == (if keep(x) then [x] else []) + Where(s, keep)
  {
    assert ([x] + s)[0] == x && ([x] + s)[1..] == s;
  }

  /** `where` distributes over concatenation. */
  lemma {:induction false} WhereAppend(a: seq<Payment>, b: seq<Payment>, keep: Payment -> bool)
    ensures Where(a + b, keep) == Where(a, keep) + Where(b, keep)
  {
    if a == [] {
      assert a + b == b;
      assert Where(a, keep) + Where(b, keep) == Where(b, keep);
    } else {
      var x, rest := a[0], a[1..];
      WhereAppend(rest, b, keep);
      WhereCons(x, rest + b, keep);
      WhereCons(x, rest, keep);
      assert a == [x] + rest;
      ConcatAssoc([x], rest, b);
      ConcatAssoc(if keep(x) then [x] else [], Where(rest, keep), Where(b, keep));
    }
  }

  lemma ConcatAssoc(a: seq<Payment>, b: seq<Payment>, c: seq<Payment>)
    ensures (a + b) + c == a + (b + c)
  {
  }

  /** A row listed no later than the head of a sorted sequence can be put in front of it. */
  lemma PrependKeepsOrder(x: Payment, s: seq<Payment>)
    requires SortedDesc(s)
    requires s != [] ==> Precedes(x, s[0])
    ensures SortedDesc([x] + s)
  {
    forall i, j | 0 <= i < j < |[x] + s| ensures Precedes(([x] + s)[i], ([x] + s)[j]) {
      assert ([x] + s)[j] == s[j - 1];
      if i > 0 {
        assert ([x] + s)[i] == s[i - 1];
      } else {
        PrecedesIsTotalPreorder(x, s[0], s[j - 1]);
      }
    }
  }

  /** Insert `x` into rows already in listing order, before the first row it is listed no later than. */
  function Insert(x: Payment, s: seq<Payment>): (r: seq<Payment>)
    requires SortedDesc(s)
    ensures SortedDesc(r)
    ensures multiset(r) == multiset(s) + multiset{x}
  {
    if s == [] || Precedes(x, s[0]) then
      PrependKeepsOrder(x, s);
      [x] + s
    else
      var rest := Insert(x, s[1..]);
      assert s == [s[0]] + s[1..];
      assert rest[0] in multiset(rest);
      HeadPrecedesRest(s);
      PrependKeepsOrder(s[0], rest);
      [s[0]] + rest
  }

  /** `order(created_at: :desc, id: :desc)`: the same rows, in listing order. */
  function OrderDesc(s: seq<Payment>): (r: seq<Payment>)
    ensures SortedDesc(r)
    ensures multiset(r) == multiset(s)
    ensures forall p :: p in r <==> p in s
  {
    if s == [] then []
    else
      assert s == [s[0]] + s[1..];
      var r := Insert(s[0], OrderDesc(s[1..]));
      assert forall p :: p in r <==> p in multiset(r);
      r
  }

  /** `relation.limit(n)` and `array.first(n)`: the first `n` rows, or all of them when there are fewer. */
  function Take(s: seq<Payment>, n: nat): (r: seq<Payment>)
    ensures |r| == if |s| < n then |s| else n
    ensures r == s[..|r|]
  {
    if |s| < n then s else s[..n]
  }

  /** A condition every row meets selects all rows. */
  lemma {:induction false} WhereAll(s: seq<Payment>, keep: Payment -> bool)
    requires forall p | p in s :: keep(p)
    ensures Where(s, keep) == s
  {
    if s != [] {
      WhereAll(s[1..], keep);
      assert s == [s[0]] + s[1..];
    }
  }

  /** A condition no row meets selects nothing. */
  lemma WhereNone(s: seq<Payment>, keep: Payment -> bool)
    requires forall p | p in s :: !keep(p)
    ensures Where(s, keep) == []
  {
  }

  /** Cutting to `m` rows and then to `n <= m` rows is cutting to `n` rows. */
  lemma TakeOfTake(s: seq<Payment>, m: nat, n: nat)
    requires n <= m
    ensures Take(Take(s, m), n) == Take(s, n)
  {
  }

  /** Filters that agree on every row select the same rows. */
  lemma {:induction false} WhereCongruent(s: seq<Payment>, f: Payment -> bool, g: Payment -> bool)
    requires forall p :: f(p) == g(p)
    ensures Where(s, f) == Where(s, g)
  {
    if s != [] {
      WhereCongruent(s[1..], f, g);
    }
  }

  /** Two chained `where`s are one `where` on the conjunction. */
  lemma {:induction false} WhereWhere(s: seq<Payment>, f: Payment -> bool, g: Payment -> bool, h: Payment -> bool)
    requires forall p :: h(p) == (f(p) && g(p))
    ensures Where(Where(s, f), g) == Where(s, h)
  {
    if s != [] {
      WhereWhere(s[1..], f, g, h);
      var head := if f(s[0]) then [s[0]] else [];
      WhereAppend(head, Where(s[1..], f), g);
      if f(s[0]) {
        assert head[1..] == [];
      }
    }
  }

  /** `where` on a single row keeps it exactly when the condition holds. */
  lemma WhereSingleton(x: Payment, keep: Payment -> bool)
    ensures Where([x], keep) == if keep(x) then [x] else []
  {
    assert [x][1..] == [];
  }

  /** Filtering commutes with inserting into a sorted sequence. */
  lemma {:induction false} WhereInsert(x: Payment, s: seq<Payment>, keep: Payment -> bool)
    requires SortedDesc(s)
    ensures SortedDesc(Where(s, keep))
    ensures Where(Insert(x, s), keep) ==
            if keep(x) then Insert(x, Where(s, keep)) else Where(s, keep)
  {
    WhereKeepsOrder(s, keep);
    var w := Where(s, keep);
    WhereSingleton(x, keep);
    if s == [] || Precedes(x, s[0]) {
      WhereAppend([x], s, keep);
      if keep(x) && w != [] {
        WhereSelects(s, keep);
        assert w[0] in s;
        HeadPrecedesRest(s);
        if w[0] != s[0] {
          assert w[0] in s[1..] by {
            assert s == [s[0]] + s[1..];
          }
        }
        PrecedesIsTotalPreorder(x, s[0], w[0]);
      }
    } else {
      var rest := Insert(x, s[1..]);
      WhereInsert(x, s[1..], keep);
      WhereAppend([s[0]], rest, keep);
      WhereSingleton(s[0], keep);
      assert s == [s[0]] + s[1..];
      WhereAppend([s[0]], s[1..], keep);
      var w' := Where(s[1..], keep);
      if keep(s[0]) {
        assert w == [s[0]] + w';
        if keep(x) {
          assert w[1..] == w';
          assert Insert(x, w) == [s[0]] + Insert(x, w');
        }
      } else {
        assert w == w';
      }
    }
  }

  /** A `where` after `order` selects the same rows, in the same order, as `order` after `where`. */
  lemma {:induction false} WhereOrderDesc(s: seq<Payment>, keep: Payment -> bool)
    ensures Where(OrderDesc(s), keep) == OrderDesc(Where(s, keep))
  {
    if s != [] {
      WhereOrderDesc(s[1..], keep);
      WhereInsert(s[0], OrderDesc(s[1..]), keep);
      assert s == [s[0]] + s[1..];
      WhereAppend([s[0]], s[1..], keep);
      WhereSingleton(s[0], keep);
      var w, w' := Where(s, keep), Where(s[1..], keep);
      assert OrderDesc(s) == Insert(s[0], OrderDesc(s[1..]));
      if keep(s[0]) {
        assert w == [s[0]] + w';
        assert w[1..] == w';
        assert OrderDesc(w) == Insert(s[0], OrderDesc(w'));
      } else {
        assert w == w';
      }
    }
  }

  /** Rows already in listing order are left as they are by `order`. */
  lemma {:induction false} OrderDescOfSorted(s: seq<Payment>)
    requires SortedDesc(s)
    ensures OrderDesc(s) == s
  {
    if s != [] {
      OrderDescOfSorted(s[1..]);
      assert s == [s[0]] + s[1..];
    }
  }

  /** Inserting a row whose id is new keeps the ids unique. */
  lemma {:induction false} InsertKeepsIdsUnique(x: Payment, s: seq<Payment>)
    requires SortedDesc(s) && UniqueIds(s)
    requires forall p :: p in s ==> p.id != x.id
    ensures UniqueIds(Insert(x, s))
  {
    if s != [] && !Precedes(x, s[0]) {
      InsertKeepsIdsUnique(x, s[1..]);
      var rest := Insert(x, s[1..]);
      forall p | p in rest ensures p.id != s[0].id {
        assert p in multiset(rest);
      }
    }
  }

  /** `order` keeps the ids unique. */
  lemma {:induction false} OrderDescKeepsIdsUnique(s: seq<Payment>)
    requires UniqueIds(s)
    ensures UniqueIds(OrderDesc(s))
  {
    if s != [] {
      OrderDescKeepsIdsUnique(s[1..]);
      InsertKeepsIdsUnique(s[0], OrderDesc(s[1..]));
    }
  }

  /** A filter that holds exactly from position `m` onwards selects the suffix from `m`. */
  lemma {:induction false} WhereSuffix(s: seq<Payment>, keep: Payment -> bool, m: nat)
    requires m <= |s|
    requires forall k :: 0 <= k < |s| ==> (keep(s[k]) <==> m <= k)
    ensures Where(s, keep) == s[m..]
  {
    if s != [] {
      if m == 0 {
        WhereSuffix(s[1..], keep, 0);
        assert s == [s[0]] + s[1..];
      } else {
        WhereSuffix(s[1..], keep, m - 1);
      }
    }
  }
}

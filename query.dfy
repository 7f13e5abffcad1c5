/**
 * The pieces of a `findAndCountAll` that the controllers configure: a
 * filter (`where`), an order (`order: [["created_at", "DESC"]]`) and a page
 * window (`offset`, `limit`), together with the query-string arithmetic the
 * three list endpoints share:
 *   page   = parseInt(req.query.page)  || 1
 *   limit  = parseInt(req.query.limit) || 10
 *   offset = (page - 1) * limit
 *   meta   = { page, limit, totalPage: Math.ceil(count / limit), total: count }
 */
module Query {
  import opened Outcomes
  import opened Errors
  import Text
  import Envelope

  // ---------------------------------------------------------------------------
  // where

  function Filter<T(==)>(s: seq<T>, p: T -> bool): (r: seq<T>)
    ensures |r| <= |s|
    ensures forall i :: 0 <= i < |r| ==> r[i] in s && p(r[i])
    ensures forall i :: 0 <= i < |s| && p(s[i]) ==> s[i] in r
  {
    if s == [] then []
    else if p(s[0]) then [s[0]] + Filter(s[1..], p)
    else Filter(s[1..], p)
  }

  /** Filtering keeps the rows' relative order and drops exactly the rejected ones. */
  lemma {:induction false} FilterAppend<T>(s: seq<T>, x: T, p: T -> bool)
    ensures Filter(s + [x], p) == Filter(s, p) + (if p(x) then [x] else [])
  {
    if s != [] {
      assert (s + [x])[1..] == s[1..] + [x];
      FilterAppend(s[1..], x, p);
    } else {
      assert s + [x] == [x];
    }
  }

  /** Replacing one row changes the number of matches by what the old and the new row contribute. */
  lemma {:induction false} FilterUpdateCount<T>(s: seq<T>, k: nat, x: T, p: T -> bool)
    requires k < |s|
    ensures |Filter(s[k := x], p)| == |Filter(s, p)| - (if p(s[k]) then 1 else 0) + (if p(x) then 1 else 0)
  {
    if k > 0 {
      assert s[k := x][1..] == s[1..][k - 1 := x];
      FilterUpdateCount(s[1..], k - 1, x, p);
    } else {
      assert s[k := x][1..] == s[1..];
    }
  }

  /** `findOne` without an order: the index of the first row, in table order, that satisfies `p`. */
  function First<T>(s: seq<T>, p: T -> bool): (k: Option<nat>)
    ensures k.Some? ==> k.value < |s| && p(s[k.value]) && forall j :: 0 <= j < k.value ==> !p(s[j])
    ensures k.None? <==> forall i :: 0 <= i < |s| ==> !p(s[i])
  {
    if s == [] then None
    else if p(s[0]) then Some(0)
    else match First(s[1..], p)
      case None =>
        assert forall i :: 1 <= i < |s| ==> s[i] == s[1..][i - 1];
        None
      case Some(k) =>
        assert forall j :: 1 <= j < k + 1 ==> s[j] == s[1..][j - 1];
        Some(k + 1)
  }

  /** Replacing a row by one that `p` judges the same way does not change which row `findOne` finds. */
  lemma {:induction false} FirstUpdate<T>(s: seq<T>, k: nat, x: T, p: T -> bool)
    requires k < |s| && p(x) == p(s[k])
    ensures First(s[k := x], p) == First(s, p)
  {
    var t := s[k := x];
    if k > 0 {
      assert t[0] == s[0] && t[1..] == s[1..][k - 1 := x];
      FirstUpdate(s[1..], k - 1, x, p);
    } else {
      assert t[1..] == s[1..];
    }
  }

  // ---------------------------------------------------------------------------
  // order by a timestamp, newest first

  predicate SortedDesc<T>(s: seq<T>, key: T -> int) {
    forall i, j :: 0 <= i < j < |s| ==> key(s[i]) >= key(s[j])
  }

  function Insert<T(==)>(x: T, s: seq<T>, key: T -> int): (r: seq<T>)
    requires SortedDesc(s, key)
    ensures |r| == |s| + 1
    ensures forall j :: 0 <= j < |r| ==> r[j] == x || r[j] in s
    ensures SortedDesc(r, key)
  {
    if s == [] || key(x) >= key(s[0]) then
      ConsSorted(x, s, key);
      [x] + s
    else
      var rest := Insert(x, s[1..], key);
      assert s == [s[0]] + s[1..];
      InsertBelow(x, s, key, rest);
      ConsSorted(s[0], rest, key);
      [s[0]] + rest
  }

  /** A row at or above every row of a sorted sequence can go in front of it. */
  lemma ConsSorted<T>(h: T, s: seq<T>, key: T -> int)
    requires SortedDesc(s, key)
    requires s != [] ==> key(h) >= key(s[0])
    ensures SortedDesc([h] + s, key)
  {
    var r := [h] + s;
    forall i, j | 0 <= i < j < |r| ensures key(r[i]) >= key(r[j]) {
      if i == 0 && j > 1 {
        assert key(s[0]) >= key(s[j - 1]);
      }
    }
  }

  /** Every row of the insertion into the tail stays at or below the head. */
  lemma InsertBelow<T>(x: T, s: seq<T>, key: T -> int, rest: seq<T>)
    requires SortedDesc(s, key) && s != [] && key(x) < key(s[0])
    requires forall j :: 0 <= j < |rest| ==> rest[j] == x || rest[j] in s[1..]
    ensures forall j :: 0 <= j < |rest| ==> key(s[0]) >= key(rest[j])
  {
    forall j | 0 <= j < |rest| ensures key(s[0]) >= key(rest[j]) {
      if rest[j] != x {
        var k :| 0 <= k < |s[1..]| && s[1..][k] == rest[j];
        assert s[k + 1] == rest[j];
      }
    }
  }

  /** Inserting adds exactly `x` to the rows. */
  lemma {:induction false} InsertPermutes<T>(x: T, s: seq<T>, key: T -> int)
    requires SortedDesc(s, key)
    ensures multiset(Insert(x, s, key)) == multiset(s) + multiset{x}
  {
    if s != [] && key(x) < key(s[0]) {
      InsertPermutes(x, s[1..], key);
      assert s == [s[0]] + s[1..];
    }
  }

  /** `ORDER BY key DESC`: a permutation of its input, newest first (ties keep table order). */
  function SortDesc<T(==)>(s: seq<T>, key: T -> int): (r: seq<T>)
    ensures SortedDesc(r, key)
    ensures multiset(r) == multiset(s)
  {
    if s == [] then []
    else
      assert s == [s[0]] + s[1..];
      InsertPermutes(s[0], SortDesc(s[1..], key), key);
      Insert(s[0], SortDesc(s[1..], key), key)
  }

  /** `findAndCountAll({ where: p, order: [[key, "DESC"]] })` before the window: the matching rows, newest first. */
  function Newest<T(==)>(s: seq<T>, p: T -> bool, key: T -> int): (r: seq<T>)
    ensures |r| == |Filter(s, p)|
    ensures forall i :: 0 <= i < |r| ==> r[i] in s && p(r[i])
    ensures forall x :: x in s && p(x) ==> x in r
    ensures multiset(r) == multiset(Filter(s, p))
    ensures SortedDesc(r, key)
  {
    FilterMembers(s, p);
    Rearranged(SortDesc(Filter(s, p), key), Filter(s, p), s, p);
    SortDesc(Filter(s, p), key)
  }

  /** A rearrangement of the rows matching `p` holds every matching row and nothing else. */
  lemma Rearranged<T>(r: seq<T>, m: seq<T>, s: seq<T>, p: T -> bool)
    requires multiset(r) == multiset(m)
    requires forall x :: x in m <==> x in s && p(x)
    ensures |r| == |m|
    ensures forall i :: 0 <= i < |r| ==> r[i] in s && p(r[i])
    ensures forall x :: x in s && p(x) ==> x in r
  {
    assert |r| == |multiset(r)|;
    forall x ensures x in r <==> x in m {
      assert x in r <==> x in multiset(r);
      assert x in m <==> x in multiset(m);
    }
  }

  /** What `Filter` keeps, stated on elements. */
  lemma FilterMembers<T>(s: seq<T>, p: T -> bool)
    ensures forall x :: x in Filter(s, p) <==> x in s && p(x)
  {
    var r := Filter(s, p);
    forall x | x in r ensures x in s && p(x) {
      var i :| 0 <= i < |r| && r[i] == x;
    }
  }

  // ---------------------------------------------------------------------------
  // page, limit, offset

  /** `parseInt(q) || fallback`: NaN and 0 (also -0) are falsy and give the fallback. */
  function QueryInt(q: Option<string>, fallback: int): (v: int)
    ensures q.None? ==> v == fallback
    ensures q.Some? ==> match Text.ParseInt(q.value, false)
                        case None => v == fallback
                        case Some(n) => v == if n == 0 then fallback else n
  {
    if q.None? then fallback
    else match Text.ParseInt(q.value, false)
      case None => fallback
      case Some(n) => if n == 0 then fallback else n
  }

  datatype Window = Window(page: int, limit: int, offset: int)

  /** The three numbers every list endpoint derives from its query string. */
  function Params(pageQ: Option<string>, limitQ: Option<string>): (w: Window)
    ensures w.page != 0 && w.limit != 0
    ensures w.offset == (w.page - 1) * w.limit
    ensures w.page == QueryInt(pageQ, 1) && w.limit == QueryInt(limitQ, 10)
  {
    var page := QueryInt(pageQ, 1);
    var limit := QueryInt(limitQ, 10);
    Window(page, limit, (page - 1) * limit)
  }

  /** The number of rows before page `page` when every page holds `limit` rows. */
  function Offset(page: int, limit: int): (n: nat)
    requires page > 0 && limit > 0
    ensures n == (page - 1) * limit
  {
    NonNegTimesPos(page - 1, limit);
    (page - 1) * limit
  }

  /** A missing, unparsable or zero parameter takes its default; a number printed by `String` is read back. */
  lemma QueryIntDefaults(n: int, fallback: int)
    ensures QueryInt(None, fallback) == fallback
    ensures QueryInt(Some(Text.IntToString(n)), fallback) == if n == 0 then fallback else n
  {
    Text.ParseIntRoundTrip(n, false);
  }

  /** A parameter with no digits, such as "abc", takes its default. */
  lemma QueryIntUnparsable(fallback: int)
    ensures QueryInt(Some("abc"), fallback) == fallback
  {
    var s := "abc";
    assert !Text.IsJsSpace(s[0]);
    assert Text.TrimStart(s) == s;
    assert Text.Unsigned(s) == s;
    assert !Text.HexPrefixed(s, false);
    assert Text.LeadingDigits(s, 10) == [];
  }

  /** `Math.ceil(count / limit)` for a positive limit: the least number of pages that hold `count` rows. */
  function CeilDiv(count: nat, limit: int): (pages: nat)
    requires limit > 0
    ensures (pages - 1) * limit < count <= pages * limit
  {
    var q := (count + limit - 1) / limit;
    assert q * limit <= count + limit - 1 < q * limit + limit;
    q
  }

  /** `rows.slice(offset, offset + limit)`: the window the store returns. */
  function Slice<T>(all: seq<T>, offset: nat, limit: nat): (r: seq<T>)
    ensures offset >= |all| ==> r == []
    ensures offset < |all| ==> |r| == if offset + limit <= |all| then limit else |all| - offset
    ensures forall i :: 0 <= i < |r| ==> offset + i < |all| && r[i] == all[offset + i]
  {
    if offset >= |all| then []
    else if offset + limit <= |all| then all[offset..offset + limit]
    else all[offset..]
  }

  datatype Page<T> = Page(rows: seq<T>, meta: Envelope.Meta)

  /** A window as `Params` produces it: nonzero page and limit, offset derived from both. */
  predicate Derived(w: Window) {
    w.page != 0 && w.limit != 0 && w.offset == (w.page - 1) * w.limit
  }

  /**
   * One page of an already ordered result for a given window. A negative
   * offset or limit makes the store reject the `LIMIT` clause, which
   * surfaces as a 500.
   */
  function Serve<T>(ordered: seq<T>, w: Window): (r: Result<Page<T>, AppError>)
    requires Derived(w)
    ensures r.Err? <==> w.offset < 0 || w.limit < 0
    ensures r.Err? ==> r.error == Unexpected(InvalidQuery)
    ensures r.Ok? ==>
              && r.value.meta.page == w.page && r.value.meta.limit == w.limit
              && r.value.meta.total == |ordered|
              && r.value.rows == Slice(ordered, w.offset, w.limit)
              && r.value.meta.totalPage == CeilDiv(|ordered|, w.limit)
  {
    if w.offset < 0 || w.limit < 0 then Err(Unexpected(InvalidQuery))
    else Ok(Page(Slice(ordered, w.offset, w.limit),
                 Envelope.Meta(w.page, w.limit, CeilDiv(|ordered|, w.limit), |ordered|)))
  }

  /**
   * The page a list endpoint answers with for its `page` and `limit` query
   * parameters: served exactly when both are positive, with meta `{ page,
   * limit, totalPage, total }` and the rows from `(page - 1) * limit` on.
   */
  function Paginate<T>(ordered: seq<T>, pageQ: Option<string>, limitQ: Option<string>): (r: Result<Page<T>, AppError>)
    ensures Derived(Params(pageQ, limitQ)) && r == Serve(ordered, Params(pageQ, limitQ))
    ensures r.Ok? <==> QueryInt(pageQ, 1) > 0 && QueryInt(limitQ, 10) > 0
    ensures r.Err? ==> r.error == Unexpected(InvalidQuery)
    ensures r.Ok? ==> var page, limit := QueryInt(pageQ, 1), QueryInt(limitQ, 10);
      && r.value.meta == Envelope.Meta(page, limit, CeilDiv(|ordered|, limit), |ordered|)
      && r.value.rows == Slice(ordered, Offset(page, limit), limit)
  {
    var w := Params(pageQ, limitQ);
    ServeOkIff(ordered, w);
    Serve(ordered, w)
  }

  /** A page can be served exactly when both the page and the limit are positive. */
  lemma ServeOkIff<T>(ordered: seq<T>, w: Window)
    requires Derived(w)
    ensures Serve(ordered, w).Ok? <==> w.page > 0 && w.limit > 0
  {
    if w.page < 0 && w.limit > 0 {
      NegTimesPos(w.page - 1, w.limit);
    } else if w.page > 0 && w.limit > 0 {
      NonNegTimesPos(w.page - 1, w.limit);
    }
  }

  /** A served page is within its limit, counts every row, and holds only rows of the ordered result. */
  lemma PageMembers<T>(ordered: seq<T>, w: Window, q: T -> bool)
    requires Derived(w) && Serve(ordered, w).Ok?
    requires forall i :: 0 <= i < |ordered| ==> q(ordered[i])
    ensures var p := Serve(ordered, w).value;
      && |p.rows| <= p.meta.limit == w.limit
      && p.meta.total == |ordered|
      && forall i :: 0 <= i < |p.rows| ==> q(p.rows[i])
  {
    var p := Serve(ordered, w).value;
    forall i | 0 <= i < |p.rows| ensures q(p.rows[i]) {
      assert p.rows[i] == ordered[w.offset + i];
    }
  }

  /** A page of a result sorted on `key` is itself sorted on `key`. */
  lemma PageSorted<T>(ordered: seq<T>, w: Window, key: T -> int)
    requires Derived(w) && Serve(ordered, w).Ok?
    requires SortedDesc(ordered, key)
    ensures SortedDesc(Serve(ordered, w).value.rows, key)
  {
    var rows := Serve(ordered, w).value.rows;
    forall i, j | 0 <= i < j < |rows| ensures key(rows[i]) >= key(rows[j]) {
      assert rows[i] == ordered[w.offset + i] && rows[j] == ordered[w.offset + j];
    }
  }

  lemma NonNegTimesPos(a: int, b: int)
    requires a >= 0 && b > 0
    ensures a * b >= 0
  {
  }

  lemma NegTimesPos(a: int, b: int)
    requires a < 0 && b > 0
    ensures a * b < 0
  {
    assert a * b == -((-a) * b);
  }

  /** A served page holds rows exactly when its number is within 1..totalPage. */
  lemma ServeNonEmptyIff<T>(ordered: seq<T>, w: Window)
    requires Derived(w) && Serve(ordered, w).Ok?
    ensures var p := Serve(ordered, w).value;
      p.rows != [] <==> 1 <= p.meta.page <= p.meta.totalPage
  {
    ServeOkIff(ordered, w);
    var n := |ordered|;
    var t := CeilDiv(n, w.limit);
    assert (t - 1) * w.limit < n <= t * w.limit;
    if w.page <= t {
      MulMonotone(w.page - 1, t - 1, w.limit);
      assert w.offset < n;
    } else {
      MulMonotone(t, w.page - 1, w.limit);
      assert w.offset >= n;
    }
  }

  lemma PageNonEmptyIff<T>(ordered: seq<T>, pageQ: Option<string>, limitQ: Option<string>)
    requires Paginate(ordered, pageQ, limitQ).Ok?
    ensures var p := Paginate(ordered, pageQ, limitQ).value;
      p.rows != [] <==> 1 <= p.meta.page <= p.meta.totalPage
  {
    ServeNonEmptyIff(ordered, Params(pageQ, limitQ));
  }

  lemma MulMonotone(a: int, b: int, c: int)
    requires a <= b && c > 0
    ensures a * c <= b * c
  {
    assert b * c - a * c == (b - a) * c;
  }
}

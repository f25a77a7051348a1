/**
 * How the listing handler turns its `page` and `limit` query parameters into
 * the pair that selects both the cache key and the store window.
 */
module Pagination {
  import opened Wrappers
  import opened JsNumbers

  const DefaultPage: int := 1
  const DefaultLimit: int := 20
  const MaxLimit: int := 100

  /** `n || d` for a number from `parseInt`: NaN and zero are falsy. */
  function OrDefault(n: Option<int>, d: int): int {
    if n.None? || n.value == 0 then d else n.value
  }

  /** `Math.max(1, parseInt(req.query.page as string) || 1)`. */
  function NormalisePage(q: Option<string>): (page: int)
    ensures page >= 1
    ensures match ParseInt(q)
            case None => page == DefaultPage
            case Some(n) => (n >= 1 ==> page == n) && (n < 1 ==> page == DefaultPage)
  {
    var n := OrDefault(ParseInt(q), DefaultPage);
    if n < 1 then 1 else n
  }

  /**
   * `Math.min(100, parseInt(req.query.limit as string) || 20)`. Only the
   * upper bound is enforced: a negative limit comes through unchanged.
   */
  function NormaliseLimit(q: Option<string>): (limit: int)
    ensures limit <= MaxLimit && limit != 0
    ensures match ParseInt(q)
            case None => limit == DefaultLimit
            case Some(n) =>
              && (n == 0 ==> limit == DefaultLimit)
              && (1 <= n <= MaxLimit ==> limit == n)
              && (n > MaxLimit ==> limit == MaxLimit)
              && (n < 0 ==> limit == n)
  {
    var n := OrDefault(ParseInt(q), DefaultLimit);
    if n > MaxLimit then MaxLimit else n
  }

  /** `(pageNum - 1) * limitNum`: the number of records before the page. */
  function Skip(page: int, limit: int): (skip: int)
    ensures page >= 1 && limit >= 0 ==> skip >= 0
    ensures page > 1 && limit < 0 ==> skip < 0
    ensures page == 1 ==> skip == 0
  {
    (page - 1) * limit
  }

  /** The page after `page` starts `limit` records later; the first `count` pages hold `count * limit` records. */
  lemma SkipNext(page: int, limit: int)
    ensures Skip(page + 1, limit) == Skip(page, limit) + limit
    ensures Skip(page + 1, limit) == page * limit
  {
  }

  /** A page number written out in decimal is taken as it is when positive, and as the first page otherwise. */
  lemma PageOfRendered(p: int)
    ensures NormalisePage(Some(IntString(p))) == if p >= 1 then p else DefaultPage
  {
    ParseRenderedExactly(p);
  }

  /** A limit written out in decimal is kept in 1..100, capped above 100, defaulted at 0 and kept when negative. */
  lemma LimitOfRendered(l: int)
    ensures NormaliseLimit(Some(IntString(l))) ==
              if l == 0 then DefaultLimit else if l > MaxLimit then MaxLimit else l
  {
    ParseRenderedExactly(l);
  }

  /** Text that does not start with white space, a sign or a digit is NaN, so both parameters take their defaults. */
  lemma NonNumericTakesDefaults(s: string)
    requires |s| > 0 && !IsJsSpace(s[0]) && s[0] != '-' && s[0] != '+' && !IsDecimalDigit(s[0])
    ensures NormalisePage(Some(s)) == DefaultPage
    ensures NormaliseLimit(Some(s)) == DefaultLimit
  {
    assert TrimStart(s) == s;
    assert Unsigned(s) == s;
    assert ParseText(s) == None;
  }

  /** `?page=0&limit=500` selects the same pair as `?page=1&limit=100`. */
  lemma ClampedExample()
    ensures NormalisePage(Some("0")) == NormalisePage(Some("1")) == 1
    ensures NormaliseLimit(Some("500")) == NormaliseLimit(Some("100")) == MaxLimit
  {
    assert IntString(0) == "0";
    assert IntString(1) == "1";
    assert IntString(100) == "100";
    assert IntString(500) == "500";
    PageOfRendered(0);
    PageOfRendered(1);
    LimitOfRendered(100);
    LimitOfRendered(500);
  }
}

/**
 * Cache key derivation. A page of the listing lives under
 * `movies_page_{page}_limit_{limit}`; a single movie lives under
 * `movie_{x}`, where `x` is the raw route parameter on the read and delete
 * paths and the title on the create path, so the two share one namespace.
 */
module Keys {
  import opened Wrappers
  import opened JsNumbers

  const PagePrefix: string := "movies_page_"
  const LimitInfix: string := "_limit_"
  const ItemPrefix: string := "movie_"

  /** `movies_page_${pageNum}_limit_${limitNum}`. */
  function PageKey(page: int, limit: int): (k: string)
    ensures |k| == |PagePrefix| + |IntString(page)| + |LimitInfix| + |IntString(limit)|
    ensures k[..|PagePrefix|] == PagePrefix
    ensures k[|PagePrefix|..|PagePrefix| + |IntString(page)|] == IntString(page)
    ensures k[|k| - |IntString(limit)|..] == IntString(limit)
  {
    var pageText := IntString(page);
    var limitText := IntString(limit);
    var k := PagePrefix + pageText + LimitInfix + limitText;
    assert k[..|PagePrefix|] == PagePrefix;
    assert k[|PagePrefix|..|PagePrefix| + |pageText|] == pageText;
    assert k[|k| - |limitText|..] == limitText;
    k
  }

  /** `movie_${movie_id}` and `movie_${title}`: the raw text can be cut back out of the key. */
  function ItemKey(suffix: string): (k: string)
    ensures |k| == |ItemPrefix| + |suffix|
    ensures k[..|ItemPrefix|] == ItemPrefix && k[|ItemPrefix|..] == suffix
  {
    ItemPrefix + suffix
  }

  /** Splits a page key into the text after the prefix, and that text into page, infix and limit. */
  lemma PageKeyParts(page: int, limit: int)
    ensures var rest := IntString(page) + (LimitInfix + IntString(limit));
            && PageKey(page, limit)[|PagePrefix|..] == rest
            && rest[|IntString(page)| + |LimitInfix|..] == IntString(limit)
  {
    var rest := IntString(page) + (LimitInfix + IntString(limit));
    assert PageKey(page, limit) == PagePrefix + rest;
  }

  /** The page reads back from the text after the prefix. */
  lemma PageOfPageKey(page: int, limit: int)
    ensures ParseText(PageKey(page, limit)[|PagePrefix|..]) == Some(page)
  {
    PageKeyParts(page, limit);
    ParseRendered(page, LimitInfix + IntString(limit));
  }

  /** Distinct normalised (page, limit) pairs never share a cache entry. */
  lemma PageKeyInjective(p1: int, l1: int, p2: int, l2: int)
    requires PageKey(p1, l1) == PageKey(p2, l2)
    ensures p1 == p2 && l1 == l2
  {
    PageOfPageKey(p1, l1);
    PageOfPageKey(p2, l2);
    assert p1 == p2;
    var k := PageKey(p1, l1);
    assert |IntString(l1)| == |IntString(l2)|;
    assert IntString(l1) == k[|k| - |IntString(l1)|..] == IntString(l2);
    IntStringInjective(l1, l2);
  }

  /** No movie key is a page key: the sixth character tells them apart. */
  lemma ItemKeyNeverPageKey(suffix: string, page: int, limit: int)
    ensures ItemKey(suffix) != PageKey(page, limit)
  {
    assert ItemKey(suffix)[5] == '_';
    assert PageKey(page, limit)[5] == 's';
  }

  /** Different suffixes give different movie keys; the same suffix, whether an id or a title, gives the same one. */
  lemma ItemKeyInjective(a: string, b: string)
    ensures ItemKey(a) == ItemKey(b) <==> a == b
  {
    if ItemKey(a) == ItemKey(b) {
      assert a == ItemKey(a)[|ItemPrefix|..];
      assert b == ItemKey(b)[|ItemPrefix|..];
    }
  }
}

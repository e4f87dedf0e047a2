/**
 The products endpoint address (`apiBase` and `buildProductsUrl` in app.js).

 The two places the page reads the base from, the `FERJO_API_BASE` entry of
 `localStorage` and `window.CONFIG.API`, and the clock `Date.now()` are
 passed in; a missing entry is the empty string.
 */
module Api {
  import opened Text

  /** `.replace(/\/+$/, '')`: the trailing run of `/` removed. */
  function StripTrailingSlashes(s: string): (r: string)
    ensures |r| <= |s| && r == s[..|r|]
    ensures forall i :: |r| <= i < |s| ==> s[i] == '/'
    ensures r == [] || r[|r| - 1] != '/'
    decreases |s|
  {
    if |s| > 0 && s[|s| - 1] == '/' then StripTrailingSlashes(s[..|s| - 1]) else s
  }

  /** `k` slashes. */
  function Slashes(k: nat): (r: string)
    ensures |r| == k && forall i :: 0 <= i < k ==> r[i] == '/'
  {
    seq(k, i => '/')
  }

  /** Stripping undoes appending slashes to an address that does not end in one. */
  lemma {:induction false} StripUndoesSlashes(b: string, k: nat)
    requires b == [] || b[|b| - 1] != '/'
    ensures StripTrailingSlashes(b + Slashes(k)) == b
    decreases k
  {
    if k > 0 {
      assert (b + Slashes(k))[..|b| + k - 1] == b + Slashes(k - 1);
      StripUndoesSlashes(b, k - 1);
    } else {
      assert b + Slashes(0) == b;
    }
  }

  /** Every address is its stripped form followed by the slashes that were removed. */
  lemma StripSplits(s: string)
    ensures s == StripTrailingSlashes(s) + Slashes(|s| - |StripTrailingSlashes(s)|)
  {
    var r := StripTrailingSlashes(s);
    assert s == r + s[|r|..];
  }

  lemma StripIdempotent(s: string)
    ensures StripTrailingSlashes(StripTrailingSlashes(s)) == StripTrailingSlashes(s)
  {
    StripUndoesSlashes(StripTrailingSlashes(s), 0);
    assert StripTrailingSlashes(s) + Slashes(0) == StripTrailingSlashes(s);
  }

  /** `apiBase`: the stored base if there is one, otherwise the configured one, without trailing slashes. */
  function ApiBase(stored: string, configured: string): (r: string)
    ensures stored != "" ==> exists k: nat :: stored == r + Slashes(k)
    ensures stored == "" ==> exists k: nat :: configured == r + Slashes(k)
    ensures r == [] || r[|r| - 1] != '/'
  {
    var saved := if stored != "" then stored else configured;
    StripSplits(saved);
    StripTrailingSlashes(saved)
  }

  /** The fixed part of the query: the products route and the cache-busting timestamp parameter. */
  const ProductsQuery := "path=products&t="

  /** The address of the products route under a non-empty base: `?` or `&`, the route and the timestamp. */
  function ProductsUrl(base: string, now: nat): (url: string)
    ensures |url| > |base| + 1 + |ProductsQuery|
    ensures url[..|base|] == base
    ensures url[|base|] == (if '?' in base then '&' else '?')
    ensures url[|base| + 1..|base| + 1 + |ProductsQuery|] == ProductsQuery
  {
    var join := if '?' in base then '&' else '?';
    var url := base + [join] + ProductsQuery + Decimal(now);
    assert url[..|base|] == base;
    assert url[|base| + 1..|base| + 1 + |ProductsQuery|] == ProductsQuery;
    url
  }

  /** `buildProductsUrl`: empty without a base, else the products route under it. */
  function BuildProductsUrl(stored: string, configured: string, now: nat): (url: string)
    ensures url == "" <==> ApiBase(stored, configured) == ""
    ensures url != "" ==> url == ProductsUrl(ApiBase(stored, configured), now)
  {
    var base := ApiBase(stored, configured);
    if base == "" then "" else ProductsUrl(base, now)
  }

  /** The timestamp reads back from the end of the address. */
  lemma TimestampRoundTrip(base: string, now: nat)
    ensures DecimalValue(ProductsUrl(base, now)[|base| + 1 + |ProductsQuery|..]) == now
  {
    assert ProductsUrl(base, now)[|base| + 1 + |ProductsQuery|..] == Decimal(now);
    DecimalRoundTrip(now);
  }

  lemma NoQuestionMarkInQuery(now: nat)
    ensures '?' !in ProductsQuery + Decimal(now)
  {
    var q := ProductsQuery;
    assert forall i :: 0 <= i < |q| ==> q[i] != '?';
    var d := Decimal(now);
    assert forall i :: 0 <= i < |d| ==> d[i] != '?';
  }

  lemma CountAcrossJoin(base: string, join: char, tail: string)
    requires '?' !in tail
    ensures multiset(base + [join] + tail)['?'] == multiset(base)['?'] + (if join == '?' then 1 else 0)
  {
    assert multiset(base + [join] + tail) == multiset(base) + multiset([join]) + multiset(tail);
  }

  lemma ProductsUrlSplits(base: string, now: nat)
    ensures ProductsUrl(base, now) == base + [if '?' in base then '&' else '?'] + (ProductsQuery + Decimal(now))
  {
  }

  /**
   The joiner never starts a second query string: the address has as many `?`
   as the base when the base has one, and exactly one otherwise.
   */
  lemma SingleQueryString(base: string, now: nat)
    ensures multiset(ProductsUrl(base, now))['?'] == if '?' in base then multiset(base)['?'] else 1
  {
    var join := if '?' in base then '&' else '?';
    NoQuestionMarkInQuery(now);
    CountAcrossJoin(base, join, ProductsQuery + Decimal(now));
    ProductsUrlSplits(base, now);
    if '?' !in base {
      assert multiset(base)['?'] == 0;
    }
  }
}

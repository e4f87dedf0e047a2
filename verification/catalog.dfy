/**
 The catalog page's product logic in app.js: the out-of-stock flag of a card,
 the search-and-category filter (`applyFilters`), the category options
 (`hydrateFilters`) and the carousel each card starts with.

 A product is the record the products endpoint returns. A field the record
 lacks is read through `|| ''` or `|| 0` by the page, so it is represented
 here by `""` or `0`.
 */
module Catalog {
  import opened Text
  import opened Filter
  import Drive
  import Loader
  import Carousel

  datatype Product = Product(
    nombre: string,
    idDelArticulo: string,
    upcEanIsbn: string,
    categoria: string,
    cantidad: int,
    status: string,
    imageUrl: string,
    imageUrl2: string,
    imageUrl3: string)

  /** The reserved status that flags a product as sold out, whatever its case. */
  const SoldOutStatus := "sin_stock"

  /** `sinStock`: no units left, or a status that reads `sin_stock` once lower-cased. */
  predicate OutOfStock(p: Product): (b: bool)
    ensures p.cantidad <= 0 ==> b
    ensures p.status == "" ==> (b <==> p.cantidad <= 0)
  {
    p.cantidad <= 0 || ToLower(p.status) == SoldOutStatus
  }

  // ---------------------------------------------------------------------------
  // Lower-casing facts the filter relies on.

  lemma LowerCharIdempotent(c: char)
    ensures LowerChar(LowerChar(c)) == LowerChar(c)
  {
  }

  lemma ToLowerIdempotent(s: string)
    ensures ToLower(ToLower(s)) == ToLower(s)
  {
    forall i | 0 <= i < |s| ensures ToLower(ToLower(s))[i] == ToLower(s)[i] {
      LowerCharIdempotent(s[i]);
    }
  }

  /** The flag reads the status case-insensitively: lower-casing the status first changes nothing. */
  lemma OutOfStockIgnoresStatusCase(p: Product)
    ensures OutOfStock(p) <==> OutOfStock(p.(status := ToLower(p.status)))
  {
    ToLowerIdempotent(p.status);
  }

  /** A status written `SIN_STOCK` flags the product even with units in stock. */
  lemma CapitalisedStatusIsOutOfStock(p: Product)
    requires p.status == "SIN_STOCK"
    ensures OutOfStock(p)
  {
    var l := ToLower(p.status);
    assert forall i :: 0 <= i < 9 ==> l[i] == LowerChar(p.status[i]);
    assert l == SoldOutStatus;
  }

  // ---------------------------------------------------------------------------
  // `applyFilters`.

  /** The search box and the category select, as read when the filter runs. */
  datatype Criteria = Criteria(search: string, category: string)

  /** The search text as the filter uses it: lower-cased, then trimmed. */
  function Query(c: Criteria): (q: string)
    ensures |q| <= |c.search|
    ensures q == [] || (!IsJsSpace(q[0]) && !IsJsSpace(q[|q| - 1]))
  {
    Trim(ToLower(c.search))
  }

  /** The text part of the test: the query occurs in the lower-cased name or in either lower-cased code. */
  predicate MatchesText(p: Product, q: string) {
    Contains(ToLower(p.nombre), q) || Contains(ToLower(p.idDelArticulo), q) || Contains(ToLower(p.upcEanIsbn), q)
  }

  /** The per-product test of `applyFilters`; the category is compared to the stored, untrimmed `categoria`. */
  predicate Matches(p: Product, c: Criteria): (b: bool)
    ensures Query(c) == "" && c.category == "" ==> b
    ensures c.category != "" && p.categoria != c.category ==> !b
  {
    ContainsEmpty(ToLower(p.nombre));
    MatchesText(p, Query(c)) && (c.category == "" || p.categoria == c.category)
  }

  /** The list `applyFilters` renders. */
  function ApplyFilters(ps: seq<Product>, c: Criteria): (r: seq<Product>)
    ensures forall p :: p in r <==> p in ps && Matches(p, c)
  {
    Keep(ps, p => Matches(p, c))
  }

  /** The filter's output is an order-preserving subsequence of the catalog: exactly the matching products, with their multiplicity. */
  lemma ApplyFiltersIsSubsequence(ps: seq<Product>, c: Criteria)
    ensures IsSubsequence(ApplyFilters(ps, c), ps)
    ensures forall p :: multiset(ApplyFilters(ps, c))[p] == if Matches(p, c) then multiset(ps)[p] else 0
  {
    KeepIsSubsequence(ps, p => Matches(p, c));
  }

  lemma ApplyFiltersIdempotent(ps: seq<Product>, c: Criteria)
    ensures ApplyFilters(ApplyFilters(ps, c), c) == ApplyFilters(ps, c)
  {
    KeepIdempotent(ps, p => Matches(p, c));
  }

  lemma ContainsEmpty(s: string)
    ensures Contains(s, "")
  {
    assert OccursAt(s, "", 0);
  }

  /** A search box holding only spaces (or nothing) is the empty query. */
  lemma BlankSearchIsEmptyQuery(search: string)
    requires forall i :: 0 <= i < |search| ==> IsJsSpace(search[i])
    ensures Query(Criteria(search, "")) == ""
  {
    var l := ToLower(search);
    var r := Trim(l);
    var lo :| TrimmedAt(l, lo, r);
  }

  /** With a blank search and no category the whole catalog is shown. */
  lemma EmptyCriteriaKeepAll(ps: seq<Product>, search: string)
    requires forall i :: 0 <= i < |search| ==> IsJsSpace(search[i])
    ensures ApplyFilters(ps, Criteria(search, "")) == ps
  {
    BlankSearchIsEmptyQuery(search);
    forall i | 0 <= i < |ps| ensures Matches(ps[i], Criteria(search, "")) {
      ContainsEmpty(ToLower(ps[i].nombre));
    }
    KeepAll(ps, p => Matches(p, Criteria(search, "")));
  }

  /** The search ignores the case of what is typed. */
  lemma SearchIgnoresCase(p: Product, search: string, category: string)
    ensures Matches(p, Criteria(search, category)) <==> Matches(p, Criteria(ToLower(search), category))
  {
    ToLowerIdempotent(search);
  }

  /** Stock plays no part in filtering: changing quantity and status never changes whether a product is listed. */
  lemma FilterIgnoresStock(ps: seq<Product>, c: Criteria, p: Product, cantidad: int, status: string)
    requires p in ps
    ensures p in ApplyFilters(ps, c) <==> Matches(p.(cantidad := cantidad, status := status), c)
  {
  }

  // ---------------------------------------------------------------------------
  // `hydrateFilters`.

  /** Ascending in the default `sort()` order, with no repeats. */
  predicate StrictlySorted(xs: seq<string>) {
    forall i, j :: 0 <= i < j < |xs| ==> LexLess(xs[i], xs[j])
  }

  lemma StrictlySortedDistinct(xs: seq<string>)
    requires StrictlySorted(xs)
    ensures forall i, j :: 0 <= i < j < |xs| ==> xs[i] != xs[j]
  {
    forall i, j | 0 <= i < j < |xs| ensures xs[i] != xs[j] {
      LexLessIrreflexive(xs[i]);
    }
  }

  lemma ConsSorted(x: string, ys: seq<string>)
    requires StrictlySorted(ys)
    requires forall i :: 0 <= i < |ys| ==> LexLess(x, ys[i])
    ensures StrictlySorted([x] + ys)
  {
    var r := [x] + ys;
    forall i, j | 0 <= i < j < |r| ensures LexLess(r[i], r[j]) {
      assert r[j] == ys[j - 1];
      if i > 0 {
        assert r[i] == ys[i - 1];
      }
    }
  }

  lemma BelowHead(x: string, ys: seq<string>)
    requires StrictlySorted(ys) && |ys| > 0 && LexLess(x, ys[0])
    ensures forall i :: 0 <= i < |ys| ==> LexLess(x, ys[i])
  {
    forall i | 0 < i < |ys| ensures LexLess(x, ys[i]) {
      LexLessTransitive(x, ys[0], ys[i]);
    }
  }

  /** Adds one option to a sorted list of options unless it is already there. */
  function InsertOption(c: string, xs: seq<string>): (r: seq<string>)
    requires StrictlySorted(xs)
    ensures StrictlySorted(r)
    ensures forall x :: x in r <==> x in xs || x == c
    decreases |xs|
  {
    if |xs| == 0 then [c]
    else if c == xs[0] then xs
    else if LexLess(c, xs[0]) then
      BelowHead(c, xs);
      ConsSorted(c, xs);
      [c] + xs
    else
      LexLessTotal(c, xs[0]);
      var rest := InsertOption(c, xs[1..]);
      assert forall i :: 0 <= i < |rest| ==> rest[i] in xs[1..] || rest[i] == c;
      ConsSorted(xs[0], rest);
      assert xs == [xs[0]] + xs[1..];
      [xs[0]] + rest
  }

  /** The category a product contributes to the select: its trimmed `categoria`. */
  function OptionOf(p: Product): string {
    Trim(p.categoria)
  }

  /**
   `hydrateFilters`: the distinct non-empty trimmed categories, sorted. Every
   option comes from some product, and every product with a non-blank
   category contributes its option.
   */
  function CategoryOptions(ps: seq<Product>): (r: seq<string>)
    ensures StrictlySorted(r)
    ensures forall c :: c in r <==> c != "" && exists i :: 0 <= i < |ps| && OptionOf(ps[i]) == c
    decreases |ps|
  {
    if |ps| == 0 then []
    else
      var rest := CategoryOptions(ps[1..]);
      var r := if OptionOf(ps[0]) == "" then rest else InsertOption(OptionOf(ps[0]), rest);
      OptionsStep(ps, rest, r);
      r
  }

  /** Membership of the options of `ps` from those of its tail and its first product. */
  lemma OptionsStep(ps: seq<Product>, rest: seq<string>, r: seq<string>)
    requires |ps| > 0
    requires forall c :: c in rest <==> c != "" && exists i :: 0 <= i < |ps| - 1 && OptionOf(ps[1..][i]) == c
    requires forall c :: c in r <==> c in rest || (c == OptionOf(ps[0]) && c != "")
    ensures forall c :: c in r <==> c != "" && exists i :: 0 <= i < |ps| && OptionOf(ps[i]) == c
  {
    forall c | c != "" && exists i :: 0 <= i < |ps| && OptionOf(ps[i]) == c
      ensures c in r
    {
      var i :| 0 <= i < |ps| && OptionOf(ps[i]) == c;
      if i > 0 {
        assert OptionOf(ps[1..][i - 1]) == c;
      }
    }
    forall c | c in rest
      ensures exists i :: 0 <= i < |ps| && OptionOf(ps[i]) == c
    {
      var i :| 0 <= i < |ps| - 1 && OptionOf(ps[1..][i]) == c;
      assert OptionOf(ps[i + 1]) == c;
    }
  }

  /** Two sorted duplicate-free lists with the same members are the same list. */
  lemma {:induction false} SortedWithSameMembersEqual(a: seq<string>, b: seq<string>)
    requires StrictlySorted(a) && StrictlySorted(b)
    requires forall x :: x in a <==> x in b
    ensures a == b
    decreases |a|
  {
    if |a| > 0 {
      assert a[0] in a;
    }
    if |b| > 0 {
      assert b[0] in b;
    }
    if |a| > 0 && |b| > 0 {
      if a[0] != b[0] {
        var k :| 0 <= k < |b| && b[k] == a[0];
        var m :| 0 <= m < |a| && a[m] == b[0];
        assert k > 0 && m > 0;
        LexLessAsymmetric(b[0], a[0]);
        assert false;
      }
      StrictlySortedDistinct(a);
      StrictlySortedDistinct(b);
      forall x ensures x in a[1..] <==> x in b[1..] {
        if x in a[1..] {
          var i :| 1 <= i < |a| && a[i] == x;
          assert x != a[0];
          assert x in b;
        }
        if x in b[1..] {
          var i :| 1 <= i < |b| && b[i] == x;
          assert x != b[0];
          assert x in a;
        }
      }
      SortedWithSameMembersEqual(a[1..], b[1..]);
      assert a == [a[0]] + a[1..] && b == [b[0]] + b[1..];
    }
  }

  /**
   The options are determined by their members: any sorted, duplicate-free
   list of exactly the non-blank trimmed categories is the option list.
   */
  lemma CategoryOptionsCanonical(ps: seq<Product>, xs: seq<string>)
    requires StrictlySorted(xs)
    requires forall c :: c in xs <==> c != "" && exists i :: 0 <= i < |ps| && OptionOf(ps[i]) == c
    ensures CategoryOptions(ps) == xs
  {
    SortedWithSameMembersEqual(CategoryOptions(ps), xs);
  }

  lemma CategoryOptionsDistinct(ps: seq<Product>)
    ensures var r := CategoryOptions(ps);
            forall i, j :: 0 <= i < j < |r| ==> r[i] != r[j]
  {
    StrictlySortedDistinct(CategoryOptions(ps));
  }

  // ---------------------------------------------------------------------------
  // The category comparison as intended: against the trimmed category.

  /** The per-product test with the category compared after trimming, as the options are built. */
  predicate MatchesIntended(p: Product, c: Criteria) {
    MatchesText(p, Query(c)) && (c.category == "" || OptionOf(p) == c.category)
  }

  function ApplyFiltersIntended(ps: seq<Product>, c: Criteria): (r: seq<Product>)
    ensures forall p :: p in r <==> p in ps && MatchesIntended(p, c)
  {
    Keep(ps, p => MatchesIntended(p, c))
  }

  /**
   With the trimmed comparison, picking a category with a blank search lists
   exactly the products whose category trims to it. Every option is such a
   category, since options are never empty.
   */
  lemma IntendedOptionSelectsItsProducts(ps: seq<Product>, opt: string, p: Product)
    requires opt != ""
    requires p in ps
    ensures p in ApplyFiltersIntended(ps, Criteria("", opt)) <==> OptionOf(p) == opt
  {
    BlankSearchIsEmptyQuery("");
    ContainsEmpty(ToLower(p.nombre));
  }

  /** Where every stored category is already trimmed, the two comparisons agree. */
  lemma TrimmedCategoriesAgree(ps: seq<Product>, c: Criteria)
    requires forall i :: 0 <= i < |ps| ==> OptionOf(ps[i]) == ps[i].categoria
    ensures ApplyFilters(ps, c) == ApplyFiltersIntended(ps, c)
  {
    assert forall p | p in ps :: Matches(p, c) == MatchesIntended(p, c);
    KeepSameTest(ps, p => Matches(p, c), p => MatchesIntended(p, c));
  }

  const Tools := "Herramientas"

  /** A product whose stored category carries a trailing space. */
  const Padded := Product("Sierra", "C3", "", Tools + " ", 2, "", "", "", "")

  /** One trailing space is what `trim` removes from a word that neither starts nor ends with a space. */
  lemma TrimDropsTrailingSpace(s: string)
    requires s != [] && !IsJsSpace(s[0]) && !IsJsSpace(s[|s| - 1])
    ensures Trim(s + " ") == s
  {
    var t := s + " ";
    assert TrimStart(t) == t;
    assert t[..|t| - 1] == s;
    assert TrimEnd(s) == s;
  }

  lemma PaddedTrims()
    ensures OptionOf(Padded) == Tools && Padded.categoria != Tools
  {
    assert Tools[0] == 'H' && Tools[|Tools| - 1] == 's';
    TrimDropsTrailingSpace(Tools);
    assert |Padded.categoria| == |Tools| + 1;
  }

  lemma PaddedMatchesText()
    ensures MatchesText(Padded, Query(Criteria("", Tools)))
  {
    assert Query(Criteria("", Tools)) == "";
    ContainsEmpty(ToLower(Padded.nombre));
  }

  lemma PaddedOptions()
    ensures CategoryOptions([Padded]) == [Tools]
  {
    PaddedTrims();
    var ps := [Padded];
    assert ps[1..] == [];
    assert CategoryOptions(ps) == InsertOption(Tools, []);
  }

  /**
   As written, the select offers `Herramientas` for a product stored with
   `Herramientas `, and choosing that option hides the product; the trimmed
   comparison lists it.
   */
  lemma AsWrittenOptionHidesItsProduct()
    ensures CategoryOptions([Padded]) == [Tools]
    ensures ApplyFilters([Padded], Criteria("", Tools)) == []
    ensures ApplyFiltersIntended([Padded], Criteria("", Tools)) == [Padded]
  {
    PaddedOptions();
    PaddedTrims();
    PaddedMatchesText();
    var c := Criteria("", Tools);
    assert !Matches(Padded, c);
    assert MatchesIntended(Padded, c);
    var ps := [Padded];
    assert ps[1..] == [];
    assert ApplyFilters(ps, c) == Keep(ps[1..], p => Matches(p, c));
    assert ApplyFiltersIntended(ps, c) == [Padded] + Keep(ps[1..], p => MatchesIntended(p, c));
  }

  // ---------------------------------------------------------------------------
  // The card's carousel.

  /** The carousel a card starts with: the non-empty image links, each resolved by `driveVariantsFromUrl`. */
  function CardOf(p: Product): (card: Carousel.Card)
    ensures card.sources == Carousel.ImageSources(p.imageUrl, p.imageUrl2, p.imageUrl3)
    ensures card.index == 0
  {
    Carousel.Init(Drive.DriveVariants, Carousel.ImageSources(p.imageUrl, p.imageUrl2, p.imageUrl3))
  }

  /** With a Drive link first, a new card is trying that file's `uc?export=view` URL. */
  lemma CardStartsOnViewUrl(p: Product)
    ensures Drive.ExtractDriveId(p.imageUrl) != ""
            ==> CardOf(p).loader.surface == Loader.Attempting(Drive.ViewPrefix + Drive.ExtractDriveId(p.imageUrl))
  {
    if Drive.ExtractDriveId(p.imageUrl) != "" {
      var sources := Carousel.ImageSources(p.imageUrl, p.imageUrl2, p.imageUrl3);
      assert sources[0] == p.imageUrl;
    }
  }

  // ---------------------------------------------------------------------------
  // A two-product catalog.

  /** A word of lower-case ASCII letters is its own lower case. */
  lemma LowerWordUnchanged(s: string)
    requires forall i :: 0 <= i < |s| ==> 'a' <= s[i] <= 'z'
    ensures ToLower(s) == s
  {
  }

  /** A capitalised word lower-cases to its initial moved down by 32 and the rest unchanged. */
  lemma LowerCapitalised(c: char, s: string)
    requires 'A' <= c <= 'Z'
    requires forall i :: 0 <= i < |s| ==> 'a' <= s[i] <= 'z'
    ensures ToLower([c] + s) == [(c as int + 32) as char] + s
  {
    LowerWordUnchanged(s);
    assert forall i :: 1 <= i < |s| + 1 ==> ([c] + s)[i] == s[i - 1];
  }

  /** A search of lower-case letters is used as typed. */
  lemma LowerWordQuery(w: string, category: string)
    requires |w| > 0 && forall i :: 0 <= i < |w| ==> 'a' <= w[i] <= 'z'
    ensures Query(Criteria(w, category)) == w
  {
    LowerWordUnchanged(w);
  }


  /** The hammer of the example: name `Martillo`, code `A1`, five units. */
  predicate IsHammer(p: Product) {
    p.nombre == "Martillo" && p.idDelArticulo == "A1" && p.upcEanIsbn == "" && p.categoria == Tools
    && p.cantidad == 5 && p.status == ""
  }

  /** The nail of the example: name `Clavo`, code `B2`, no units. */
  predicate IsNail(p: Product) {
    p.nombre == "Clavo" && p.idDelArticulo == "B2" && p.upcEanIsbn == "" && p.categoria == Tools
    && p.cantidad == 0 && p.status == ""
  }

  lemma HammerMatchesMart(hammer: Product, search: string)
    requires IsHammer(hammer)
    requires Query(Criteria(search, "")) == "mart"
    ensures Matches(hammer, Criteria(search, ""))
  {
    HammerNameHasMart(hammer);
    assert MatchesText(hammer, Query(Criteria(search, "")));
  }

  lemma HammerNameHasMart(hammer: Product)
    requires IsHammer(hammer)
    ensures Contains(ToLower(hammer.nombre), "mart")
  {
    LowerMartillo();
    assert OccursAt("martillo", "mart", 0);
  }

  lemma LowerMartillo()
    ensures ToLower("Martillo") == "martillo"
  {
    LowerCapitalised('M', "artillo");
    assert "Martillo" == ['M'] + "artillo";
  }

  lemma LowerClavo()
    ensures ToLower("Clavo") == "clavo"
  {
    LowerCapitalised('C', "lavo");
    assert "Clavo" == ['C'] + "lavo";
  }

  lemma MartNotInClavo()
    ensures !Contains("clavo", "mart")
  {
    var n := "clavo";
    forall i | 0 <= i <= |n| - 4 ensures !OccursAt(n, "mart", i) {
      assert n[i] != 'm';
    }
  }

  lemma NailMissesMart(nail: Product, search: string)
    requires IsNail(nail)
    requires Query(Criteria(search, "")) == "mart"
    ensures !Matches(nail, Criteria(search, ""))
  {
    LowerClavo();
    MartNotInClavo();
    assert |ToLower(nail.idDelArticulo)| == 2;
    assert |ToLower(nail.upcEanIsbn)| == 0;
  }

  lemma SearchListsHammer(hammer: Product, nail: Product, search: string)
    requires IsHammer(hammer) && IsNail(nail)
    requires Query(Criteria(search, "")) == "mart"
    ensures ApplyFilters([hammer, nail], Criteria(search, "")) == [hammer]
  {
    var ps := [hammer, nail];
    var c := Criteria(search, "");
    HammerMatchesMart(hammer, search);
    NailMissesMart(nail, search);
    assert ps[1..] == [nail] && ps[1..][1..] == [];
    assert Keep([nail], p => Matches(p, c)) == Keep([nail][1..], p => Matches(p, c));
  }

  lemma CategoryListsBoth(hammer: Product, nail: Product)
    requires IsHammer(hammer) && IsNail(nail)
    ensures ApplyFilters([hammer, nail], Criteria("", Tools)) == [hammer, nail]
  {
    var ps := [hammer, nail];
    var d := Criteria("", Tools);
    BlankSearchIsEmptyQuery("");
    ContainsEmpty(ToLower(hammer.nombre));
    ContainsEmpty(ToLower(nail.nombre));
    assert forall i :: 0 <= i < |ps| ==> Matches(ps[i], d);
    KeepAll(ps, p => Matches(p, d));
  }

  /**
   Searching `mart` (in any case, with any surrounding spaces) lists only the
   hammer, the category alone lists both, and only the nail (no units) is
   flagged out of stock.
   */
  lemma HammerAndNails(hammer: Product, nail: Product, search: string)
    requires IsHammer(hammer) && IsNail(nail)
    requires Query(Criteria(search, "")) == "mart"
    ensures ApplyFilters([hammer, nail], Criteria(search, "")) == [hammer]
    ensures ApplyFilters([hammer, nail], Criteria("", Tools)) == [hammer, nail]
    ensures !OutOfStock(hammer) && OutOfStock(nail)
  {
    SearchListsHammer(hammer, nail, search);
    CategoryListsBoth(hammer, nail);
    assert |ToLower(hammer.status)| == 0;
  }

  /** The scenario with the search typed as the plain word `mart`. */
  lemma HammerAndNailsOnMart(hammer: Product, nail: Product)
    requires IsHammer(hammer) && IsNail(nail)
    ensures ApplyFilters([hammer, nail], Criteria("mart", "")) == [hammer]
  {
    LowerWordQuery("mart", "");
    HammerAndNails(hammer, nail, "mart");
  }
}

/**
 * The product list of app/routes/products/index.tsx: the loader requires a
 * signed-in user, keeps the products whose name or description contains the
 * search term (all of them when there is none), and sorts them in place by
 * descending id, newest first.
 */
module ProductIndexRoute {
  import opened Wrappers
  import opened Http
  import JsString
  import ProductStore

  type Product = ProductStore.Product

  /** Whether the store compares text with or without regard to letter case. */
  datatype CasePolicy = CaseSensitive | CaseInsensitive

  /** `{ contains: term }` on one column under the store's case policy. */
  predicate ColumnContains(policy: CasePolicy, column: string, term: string) {
    match policy
    case CaseSensitive => JsString.Contains(column, term)
    case CaseInsensitive => JsString.Contains(JsString.ToLower(column), JsString.ToLower(term))
  }

  /** The `OR` of the two column conditions. */
  predicate Matches(policy: CasePolicy, p: Product, term: string) {
    ColumnContains(policy, p.name, term) || ColumnContains(policy, p.description, term)
  }

  /** `url.searchParams.get("searchTerms") || undefined`: an empty parameter counts as none. */
  function SearchTerms(param: Option<string>): (r: Option<string>)
    ensures r.Some? <==> param.Some? && param.value != ""
    ensures r.Some? ==> r.value == param.value
  {
    if param.Some? && param.value != "" then param else None
  }

  /** `findMany({ where: { OR: [...] } })`: the matching rows, each as often as it is stored. */
  function SearchFilter(rows: seq<Product>, policy: CasePolicy, term: string): (r: seq<Product>)
    ensures forall p :: multiset(r)[p] == if Matches(policy, p, term) then multiset(rows)[p] else 0
    ensures forall p :: p in r <==> p in rows && Matches(policy, p, term)
  {
    if rows == [] then []
    else
      assert rows == [rows[0]] + rows[1..];
      (if Matches(policy, rows[0], term) then [rows[0]] else []) + SearchFilter(rows[1..], policy, term)
  }

  /** What the loader fetches: every row without a term, the matching rows with one. */
  function Found(rows: seq<Product>, policy: CasePolicy, terms: Option<string>): (r: seq<Product>)
    ensures multiset(r) <= multiset(rows)
    ensures terms.None? ==> r == rows
    ensures terms.Some? ==> forall p :: p in r <==> p in rows && Matches(policy, p, terms.value)
  {
    if terms.None? then rows else SearchFilter(rows, policy, terms.value)
  }

  /** `(a, b) => b.id - a.id` has put the list in order. */
  predicate NewestFirst(s: seq<Product>) {
    forall i, j :: 0 <= i < j < |s| ==> s[i].id >= s[j].id
  }

  predicate StrictlyNewestFirst(s: seq<Product>) {
    forall i, j :: 0 <= i < j < |s| ==> s[i].id > s[j].id
  }

  /** Exchanges two cells; the contents stay the same multiset. */
  method Swap(a: array<Product>, x: nat, y: nat)
    requires x < a.Length && y < a.Length
    modifies a
    ensures a[..] == old(a[..])[x := old(a[y])][y := old(a[x])]
    ensures multiset(a[..]) == multiset(old(a[..]))
  {
    a[x], a[y] := a[y], a[x];
  }

  /** Moves `a[i]` left past every older product, so that `a[..i + 1]` is in order. */
  method InsertNewest(a: array<Product>, i: nat)
    requires i < a.Length
    requires forall p, q :: 0 <= p < q < i ==> a[p].id >= a[q].id
    modifies a
    ensures forall p, q :: 0 <= p < q <= i ==> a[p].id >= a[q].id
    ensures multiset(a[..]) == multiset(old(a[..]))
    ensures a[i + 1..] == old(a[i + 1..])
  {
    var j := i;
    while j > 0 && a[j - 1].id < a[j].id
      invariant 0 <= j <= i
      invariant forall p, q :: 0 <= p < q <= i && p != j && q != j ==> a[p].id >= a[q].id
      invariant forall q :: j < q <= i ==> a[j].id > a[q].id
      invariant multiset(a[..]) == multiset(old(a[..]))
      invariant a[i + 1..] == old(a[i + 1..])
    {
      Swap(a, j - 1, j);
      j := j - 1;
    }
  }

  /** `products.sort((a, b) => b.id - a.id)`: an in-place insertion sort by descending id. */
  method SortNewestFirst(a: array<Product>)
    modifies a
    ensures NewestFirst(a[..])
    ensures multiset(a[..]) == multiset(old(a[..]))
  {
    var i := 0;
    while i < a.Length
      invariant 0 <= i <= a.Length
      invariant forall p, q :: 0 <= p < q < i ==> a[p].id >= a[q].id
      invariant multiset(a[..]) == multiset(old(a[..]))
    {
      InsertNewest(a, i);
      i := i + 1;
    }
  }

  /** A product that occurs twice in a list occurs at least twice in its multiset. */
  lemma TwiceInMultiset(s: seq<Product>, i: nat, j: nat)
    requires i < j < |s| && s[i] == s[j]
    ensures multiset(s)[s[i]] >= 2
  {
    assert s == s[..j] + s[j..];
    assert s[i] in s[..j];
    assert s[j] in s[j..];
  }

  /** With distinct ids no product is stored twice. */
  lemma {:induction false} DistinctIdsOnce(rows: seq<Product>, p: Product)
    requires ProductStore.DistinctIds(rows)
    ensures multiset(rows)[p] <= 1
  {
    if rows != [] {
      var tail := rows[1..];
      assert rows == [rows[0]] + tail;
      assert ProductStore.DistinctIds(tail) by {
        forall x, y | 0 <= x < |tail| && 0 <= y < |tail| && x != y
          ensures tail[x].id != tail[y].id
        {
          assert tail[x] == rows[x + 1] && tail[y] == rows[y + 1];
        }
      }
      DistinctIdsOnce(tail, p);
      if rows[0] == p {
        forall k | 0 <= k < |tail| ensures tail[k] != p {
          assert rows[k + 1] == tail[k];
        }
        assert p !in tail;
      }
    }
  }

  /** Anything drawn from rows with distinct ids has distinct ids too. */
  lemma SubmultisetKeepsDistinctIds(s: seq<Product>, rows: seq<Product>)
    requires multiset(s) <= multiset(rows) && ProductStore.DistinctIds(rows)
    ensures ProductStore.DistinctIds(s)
  {
    forall i, j | 0 <= i < |s| && 0 <= j < |s| && i != j
      ensures s[i].id != s[j].id
    {
      if s[i] == s[j] {
        if i < j { TwiceInMultiset(s, i, j); } else { TwiceInMultiset(s, j, i); }
        DistinctIdsOnce(rows, s[i]);
      } else {
        assert s[i] in multiset(rows) && s[j] in multiset(rows);
        var x :| 0 <= x < |rows| && rows[x] == s[i];
        var y :| 0 <= y < |rows| && rows[y] == s[j];
      }
    }
  }

  /** A list in newest-first order whose ids are distinct is in strictly descending order. */
  lemma NewestFirstIsStrict(s: seq<Product>)
    requires NewestFirst(s) && ProductStore.DistinctIds(s)
    ensures StrictlyNewestFirst(s)
  {
    forall i, j | 0 <= i < j < |s| ensures s[i].id > s[j].id {
      assert s[i].id != s[j].id;
    }
  }

  /** The loader's payload: the signed-in user, the ordered products and the echoed input. */
  datatype Listing = Listing(currentUser: nat, products: seq<Product>, searchTerms: Option<string>)

  /**
   * The loader. An anonymous request is sent to log in. Otherwise the
   * products are exactly the rows that match the search (all of them without
   * a term), each once, in strictly descending id order, and the input is
   * echoed. The table is only read.
   */
  method ProductsLoader(t: ProductStore.ProductTable, session: Session, searchParam: Option<string>, policy: CasePolicy)
    returns (r: Response<Listing>)
    requires t.Valid()
    ensures session.Anonymous? ==> r == LoginRequired
    ensures session.SignedIn? ==>
      r.Ok? && r.payload.currentUser == session.userId &&
      r.payload.searchTerms == SearchTerms(searchParam) &&
      multiset(r.payload.products) == multiset(Found(t.rows, policy, SearchTerms(searchParam))) &&
      StrictlyNewestFirst(r.payload.products)
  {
    if session.Anonymous? {
      return LoginRequired;
    }
    var terms := SearchTerms(searchParam);
    var found := Found(t.rows, policy, terms);
    var a := new Product[|found|](k requires 0 <= k < |found| => found[k]);
    assert a[..] == found;
    SortNewestFirst(a);
    var products := a[..];
    ProductStore.IncreasingIdsAreDistinct(t.rows);
    SubmultisetKeepsDistinctIds(products, t.rows);
    NewestFirstIsStrict(products);
    r := Ok(Listing(session.userId, products, terms));
  }

  const MergePdf := ProductStore.Product(2, "Merge PDF", "Merge 2 or more PDF files into a single PDF file")
  const RemoveBackground := ProductStore.Product(1, "Remove Background", "Easily remove the background from an image")

  lemma MergePdfMatches(policy: CasePolicy)
    ensures Matches(policy, MergePdf, "PDF")
  {
    assert JsString.OccursAt(MergePdf.name, "PDF", 6);
    assert JsString.ToLower("PDF") == "pdf";
    var lowered := JsString.ToLower(MergePdf.name);
    assert lowered[6..9] == "pdf";
    assert JsString.OccursAt(lowered, "pdf", 6);
  }

  /** A column with no "p" in either case cannot contain "PDF", under either policy. */
  lemma NoLetterPNoMatch(policy: CasePolicy, column: string)
    requires 'p' !in column && 'P' !in column
    ensures !ColumnContains(policy, column, "PDF")
  {
    JsString.NotContainsMissingFirst(column, "PDF");
    assert JsString.ToLower("PDF") == "pdf";
    JsString.ToLowerMissing(column, 'p');
    JsString.NotContainsMissingFirst(JsString.ToLower(column), "pdf");
  }

  lemma NoLowerPInDescription()
    ensures 'p' !in RemoveBackground.description
  {
  }

  lemma NoUpperPInDescription()
    ensures 'P' !in RemoveBackground.description
  {
  }

  lemma RemoveBackgroundDoesNotMatch(policy: CasePolicy)
    ensures !Matches(policy, RemoveBackground, "PDF")
  {
    NoLowerPInDescription();
    NoUpperPInDescription();
    NoLetterPNoMatch(policy, RemoveBackground.name);
    NoLetterPNoMatch(policy, RemoveBackground.description);
  }

  /** Searching the seeded products for "PDF" keeps "Merge PDF" and drops "Remove Background", whatever the case policy. */
  lemma SeedSearch(policy: CasePolicy)
    ensures SearchFilter([RemoveBackground, MergePdf], policy, "PDF") == [MergePdf]
  {
    MergePdfMatches(policy);
    RemoveBackgroundDoesNotMatch(policy);
    assert [RemoveBackground, MergePdf][1..] == [MergePdf];
    assert [MergePdf][1..] == [];
  }
}

/**
  The pagination view-model of the `Api` component: the stored records, the
  1-based page counter, the derived visible page, the two navigation
  handlers and the two button-disabled predicates.

  The visible page is a pure function of `(countries, page)`; the effect that
  copies it into `paginated` is not modelled separately.
 */
module Pager {
  import opened Countries
  import opened Exclusion
  import opened JsArray

  /** Records per page. */
  const PageSize: nat := 9

  /** The component's state: `countries` and `page` (a JavaScript number). */
  datatype View = View(countries: seq<Country>, page: int)

  /** The state on mount: no records yet, page 1. */
  function Initial(): (v: View)
    ensures |v.countries| == 0 && v.page == 1
  {
    View([], 1)
  }

  /** `countries.slice((page - 1) * pageSize, page * pageSize)`. */
  function VisiblePage(v: View): (r: seq<Country>)
    ensures |r| <= PageSize
    ensures 1 <= v.page ==>
      r == v.countries[Min((v.page - 1) * PageSize, |v.countries|) ..
                       Min(v.page * PageSize, |v.countries|)]
    ensures forall c :: c in r ==> c in v.countries
  {
    Slice(v.countries, (v.page - 1) * PageSize, v.page * PageSize)
  }

  /** The number of pages the records fill, at least one. */
  function TotalPages(n: nat): (t: nat)
    ensures 1 <= t
    ensures n <= t * PageSize
    ensures t == 1 || (t - 1) * PageSize < n
  {
    if n == 0 then 1 else (n + PageSize - 1) / PageSize
  }

  /** The "Next Page" button's `disabled` attribute: the button is disabled
      exactly when clicking it would change nothing. */
  function NextDisabled(v: View): (r: bool)
    ensures r <==> NextPage(v) == v
  {
    v.page * PageSize >= |v.countries|
  }

  /** The "Previous Page" button's `disabled` attribute: from page 1 on, the
      button is disabled exactly when clicking it would change nothing. */
  function PrevDisabled(v: View): (r: bool)
    ensures 1 <= v.page ==> (r <==> PrevPage(v) == v)
  {
    v.page == 1
  }

  /** The `nextPage` handler. */
  function NextPage(v: View): (r: View)
    ensures r.countries == v.countries
    ensures r.page == v.page || r.page == v.page + 1
    ensures r.page == v.page + 1 <==> v.page * PageSize < |v.countries|
  {
    if v.page * PageSize < |v.countries| then v.(page := v.page + 1) else v
  }

  /** The `prevPage` handler. */
  function PrevPage(v: View): (r: View)
    ensures r.countries == v.countries
    ensures r.page == v.page || r.page == v.page - 1
    ensures r.page == v.page - 1 <==> v.page > 1
  {
    if v.page > 1 then v.(page := v.page - 1) else v
  }

  /** The fetch resolving: the filtered response replaces the records; the
      page counter is left as it is. */
  function Load(v: View, response: seq<Country>): (r: View)
    ensures r.page == v.page
    ensures forall c :: c in r.countries <==> c in response && !IsExcluded(c)
    ensures IsSubsequence(r.countries, response)
    ensures forall c ::
      multiset(r.countries)[c] == (if IsExcluded(c) then 0 else multiset(response)[c])
  {
    ExcludeIsSubsequence(response);
    ExcludeCounts(response);
    View(Exclude(response), v.page)
  }

  /** The page counter is in range: at least 1, and past page 1 only while
      the previous pages do not already hold every record. */
  predicate Valid(v: View) {
    1 <= v.page && (v.page == 1 || (v.page - 1) * PageSize < |v.countries|)
  }

  /** The invariant is exactly `1 <= page <= max(1, ceil(|countries| / 9))`. */
  lemma ValidIffPageInRange(v: View)
    ensures Valid(v) <==> 1 <= v.page <= TotalPages(|v.countries|)
  {
  }

  lemma InitialValid()
    ensures Valid(Initial())
  {
  }

  lemma NextPreservesValid(v: View)
    requires Valid(v)
    ensures Valid(NextPage(v))
  {
  }

  lemma PrevPreservesValid(v: View)
    requires Valid(v)
    ensures Valid(PrevPage(v))
  {
  }

  /** On a valid state with records, the visible page is never empty. */
  lemma VisibleNonEmpty(v: View)
    requires Valid(v)
    ensures |VisiblePage(v)| > 0 <==> |v.countries| > 0
  {
  }

  /** Without `1 <= page` the correspondence of `PrevDisabled` fails: at page 0 the
      button is enabled but the handler does nothing. */
  lemma PrevDisabledNeedsPositivePage()
    ensures !PrevDisabled(View([], 0)) && PrevPage(View([], 0)) == View([], 0)
  {
  }

  /** A button click. */
  datatype Click = Next | Prev

  /** The state after a sequence of clicks. */
  function Run(v: View, clicks: seq<Click>): (r: View)
    ensures r.countries == v.countries
    decreases |clicks|
  {
    if |clicks| == 0 then v
    else
      var w := if clicks[0] == Next then NextPage(v) else PrevPage(v);
      Run(w, clicks[1..])
  }

  /** Every sequence of clicks keeps the page counter in range. */
  lemma {:induction false} RunPreservesValid(v: View, clicks: seq<Click>)
    requires Valid(v)
    ensures Valid(Run(v, clicks))
    ensures 1 <= Run(v, clicks).page <= TotalPages(|v.countries|)
    decreases |clicks|
  {
    if |clicks| > 0 {
      var w := if clicks[0] == Next then NextPage(v) else PrevPage(v);
      if clicks[0] == Next { NextPreservesValid(v); } else { PrevPreservesValid(v); }
      RunPreservesValid(w, clicks[1..]);
    }
    ValidIffPageInRange(Run(v, clicks));
  }

  /** While there are no records, no click moves off page 1. */
  lemma {:induction false} RunOnEmptyStaysOnFirstPage(v: View, clicks: seq<Click>)
    requires |v.countries| == 0 && v.page == 1
    ensures Run(v, clicks) == v
    decreases |clicks|
  {
    if |clicks| > 0 {
      RunOnEmptyStaysOnFirstPage(v, clicks[1..]);
    }
  }

  /** The component's lifecycle: clicks before the fetch resolves, the single
      load, clicks after it. The counter is in range throughout, and the
      visible page shows records whenever there are any. */
  lemma LifecycleValid(before: seq<Click>, response: seq<Country>, after: seq<Click>)
    ensures Valid(Load(Run(Initial(), before), response))
    ensures Valid(Run(Load(Run(Initial(), before), response), after))
    ensures |Exclude(response)| > 0 ==>
      |VisiblePage(Run(Load(Run(Initial(), before), response), after))| > 0
  {
    RunOnEmptyStaysOnFirstPage(Initial(), before);
    var loaded := Load(Run(Initial(), before), response);
    RunPreservesValid(loaded, after);
    VisibleNonEmpty(Run(loaded, after));
  }

  /** The records of pages 1..k, in order. */
  function PagesUpTo(countries: seq<Country>, k: nat): seq<Country>
  {
    if k == 0 then [] else PagesUpTo(countries, k - 1) + VisiblePage(View(countries, k))
  }

  /** Pages 1..k together are the first k * 9 records. */
  lemma {:induction false} PagesUpToIsPrefix(countries: seq<Country>, k: nat)
    ensures PagesUpTo(countries, k) == countries[..Min(k * PageSize, |countries|)]
  {
    if k > 0 {
      PagesUpToIsPrefix(countries, k - 1);
      var n := |countries|;
      var a := Min((k - 1) * PageSize, n);
      var b := Min(k * PageSize, n);
      assert countries[..b] == countries[..a] + countries[a..b];
    }
  }

  /** Reading every page in order shows every record exactly once. */
  lemma PagesCoverRecords(countries: seq<Country>)
    ensures PagesUpTo(countries, TotalPages(|countries|)) == countries
  {
    PagesUpToIsPrefix(countries, TotalPages(|countries|));
  }

  /** The page counter is not reset on load, so a second load of a shorter
      response could leave it out of range; the component loads only once. */
  lemma ReloadCanLeavePageOutOfRange()
    ensures Valid(Run(Load(Initial(), seq(20, i => Country("Chile", [], "", 0, "", ""))),
                      [Next, Next]))
    ensures !Valid(Load(Run(Load(Initial(), seq(20, i => Country("Chile", [], "", 0, "", ""))),
                            [Next, Next]),
                        []))
  {
    var chile := Country("Chile", [], "", 0, "", "");
    var twenty := seq(20, i => chile);
    assert !IsExcluded(chile);
    ExcludeIsIdentityIff(twenty);
    var loaded := Load(Initial(), twenty);
    assert |loaded.countries| == 20;
    assert Run(loaded, [Next, Next]).page == 3;
  }
}

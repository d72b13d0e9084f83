/**
  The bidder list page: the three option lists and the bidder codes that
  pass the filters and the search, de-duplicated and sorted.
*/
module Bidders {
  import opened Wrappers
  import opened Text
  import opened StringOrder
  import opened OptionLists

  /** A row of `bidder_configs_enriched`. The bidder code is kept optional
      because the page guards it with `if (!code) return`. */
  datatype BidderRow = BidderRow(
    bidder: Option<string>,
    geo: Option<string>,
    device: Option<string>,
    page_type: Option<string>)

  /** `BidderSummary`: one entry of the list shown. */
  datatype BidderSummary = BidderSummary(bidder: string)

  // ---------------------------------------------------------------------
  // Option lists

  /** The three filter dimensions. */
  datatype Dimension = Geo | Device | PageType

  function Field(r: BidderRow, d: Dimension): Option<string> {
    match d
    case Geo => r.geo
    case Device => r.device
    case PageType => r.page_type
  }

  /** The field of every row, in row order. */
  function Fields(rows: seq<BidderRow>, d: Dimension): (fs: seq<Option<string>>)
    ensures |fs| == |rows|
  {
    seq(|rows|, i requires 0 <= i < |rows| => Field(rows[i], d))
  }

  /** `geoOptions`, `deviceOptions` and `pageTypeOptions`. */
  method Options(rows: seq<BidderRow>, d: Dimension) returns (opts: seq<string>)
    ensures opts == OptionList(Fields(rows, d))
  {
    opts := CollectOptions(Fields(rows, d));
  }

  /** An option list is strictly ascending and offers a value exactly when
      some row holds that non-empty value, untrimmed, in the dimension. */
  lemma OptionsSpec(rows: seq<BidderRow>, d: Dimension)
    ensures StrictlySorted(OptionList(Fields(rows, d)))
    ensures forall x :: x in OptionList(Fields(rows, d)) <==>
      x != "" && exists i :: 0 <= i < |rows| && Field(rows[i], d) == Some(x)
  {
    var fs := Fields(rows, d);
    OptionListSpec(fs);
    forall x ensures Present(fs, x) <==> x != "" && exists i :: 0 <= i < |rows| && Field(rows[i], d) == Some(x) {
      if x != "" && exists i :: 0 <= i < |rows| && Field(rows[i], d) == Some(x) {
        var i :| 0 <= i < |rows| && Field(rows[i], d) == Some(x);
        assert fs[i] == Some(x);
      }
    }
  }

  // ---------------------------------------------------------------------
  // Search

  /** The search test of `filteredBidders`: a query that trims to nothing
      imposes no constraint; otherwise the lower-cased code must include the
      trimmed, lower-cased query. */
  predicate Matches(search: string, code: string) {
    var q := Trim(search);
    q == [] || Contains(Lower(code), Lower(q))
  }

  /** A blank query matches every code; any other query matches exactly
      the codes whose lower-cased form holds the lower-cased trimmed query
      at some position. */
  lemma SearchSpec(search: string, code: string)
    ensures IsBlank(search) ==> Matches(search, code)
    ensures !IsBlank(search) ==>
      (Matches(search, code) <==> exists i: nat :: OccursAt(Lower(code), Lower(Trim(search)), i))
  {
  }

  /** Matching ignores letter case, in the query and in the code. */
  lemma SearchIgnoresCase(search: string, code: string)
    ensures Matches(Lower(search), code) == Matches(search, code)
    ensures Matches(search, Lower(code)) == Matches(search, code)
  {
    TrimLower(search);
    LowerIdempotent(Trim(search));
    LowerIdempotent(code);
  }

  /** Matching ignores whitespace around the query. */
  lemma SearchIgnoresPadding(search: string, code: string)
    ensures Matches(Trim(search), code) == Matches(search, code)
  {
    TrimIdempotent(search);
  }

  // ---------------------------------------------------------------------
  // The filtered bidder list

  /** The three filter selections and the search text; the selections
      start at `'All'` and the search empty. */
  datatype Filters = Filters(geo: string, device: string, pageType: string, search: string)

  const Initial: Filters := Filters(All, All, All, "")

  /** The row reaches `seen.add(code)`: it passes the three filters, its
      code is truthy and the code matches the search. */
  predicate Selected(f: Filters, r: BidderRow) {
    InFilters(f, r) && Truthy(r.bidder) && Matches(f.search, r.bidder.value)
  }

  /** The row passes the geo, device and page type filters. */
  predicate InFilters(f: Filters, r: BidderRow) {
    Passes(f.geo, r.geo) && Passes(f.device, r.device) && Passes(f.pageType, r.page_type)
  }

  /** What each row offers to `seen`: its code when selected, else nothing. */
  function Contributions(rows: seq<BidderRow>, f: Filters): (cs: seq<Option<string>>)
    ensures |cs| == |rows|
  {
    seq(|rows|, i requires 0 <= i < |rows| => if Selected(f, rows[i]) then rows[i].bidder else None)
  }

  /** `Array.from(seen).sort()`. */
  function FilteredCodes(rows: seq<BidderRow>, f: Filters): seq<string> {
    OptionList(Contributions(rows, f))
  }

  /** `.map((bidder) => ({ bidder }))`. */
  function Summaries(codes: seq<string>): (s: seq<BidderSummary>)
    ensures |s| == |codes|
    ensures forall i :: 0 <= i < |s| ==> s[i].bidder == codes[i]
  {
    seq(|codes|, i requires 0 <= i < |codes| => BidderSummary(codes[i]))
  }

  /** The `forEach` callback of `filteredBidders`: each early `return`
      leaves the set as it was; a row that gets through adds its code. */
  method Visit(f: Filters, r: BidderRow, seen: seq<string>) returns (seen': seq<string>)
    ensures seen' == if Selected(f, r) then Add(seen, r.bidder.value) else seen
  {
    seen' := seen;
    if f.geo != All && r.geo != Some(f.geo) {
      return;
    }
    if f.device != All && r.device != Some(f.device) {
      return;
    }
    if f.pageType != All && r.page_type != Some(f.pageType) {
      return;
    }
    assert InFilters(f, r);
    if r.bidder.None? || r.bidder.value == "" {
      return;
    }
    var code := r.bidder.value;
    var q := Trim(f.search);
    if q != [] {
      if !Contains(Lower(code), Lower(q)) {
        return;
      }
    }
    if code !in seen {
      seen' := seen + [code];
    }
  }

  /** `filteredBidders`: the callback applied to every row in order, then
      `Array.from(seen).sort()` and the wrapping into summaries. */
  method FilteredBidders(rows: seq<BidderRow>, f: Filters) returns (result: seq<BidderSummary>)
    ensures result == Summaries(FilteredCodes(rows, f))
  {
    ghost var cs := Contributions(rows, f);
    var seen: seq<string> := [];
    for i := 0 to |rows|
      invariant seen == Collect(cs[..i])
    {
      assert cs[..i + 1][..i] == cs[..i];
      seen := Visit(f, rows[i], seen);
    }
    assert cs[..|rows|] == cs;
    var codes := Sort(seen);
    result := Summaries(codes);
  }

  /** A code is offered by some selected row exactly when some row that
      passes the filters and the search carries it. */
  lemma ContributionsPresent(rows: seq<BidderRow>, f: Filters, c: string)
    ensures Present(Contributions(rows, f), c) <==>
      exists i :: 0 <= i < |rows| && Selected(f, rows[i]) && rows[i].bidder == Some(c)
  {
    var cs := Contributions(rows, f);
    if exists i :: 0 <= i < |rows| && Selected(f, rows[i]) && rows[i].bidder == Some(c) {
      var i :| 0 <= i < |rows| && Selected(f, rows[i]) && rows[i].bidder == Some(c);
      assert cs[i] == Some(c);
    }
  }

  /** The list shown is strictly ascending by code, so no code appears
      twice, and holds a code exactly when some row carries that non-empty
      code, passes the three filters and matches the search. */
  lemma FilteredBiddersSpec(rows: seq<BidderRow>, f: Filters)
    ensures var s := Summaries(FilteredCodes(rows, f));
      forall i, j :: 0 <= i < j < |s| ==> Below(s[i].bidder, s[j].bidder)
    ensures forall c :: c in FilteredCodes(rows, f) <==>
      exists i :: 0 <= i < |rows| && Selected(f, rows[i]) && rows[i].bidder == Some(c)
  {
    OptionListSpec(Contributions(rows, f));
    forall c ensures Present(Contributions(rows, f), c) <==>
      exists i :: 0 <= i < |rows| && Selected(f, rows[i]) && rows[i].bidder == Some(c)
    {
      ContributionsPresent(rows, f, c);
    }
  }

  /** The list depends only on which rows occur, not on their order or on
      how often each occurs. */
  lemma FilteredByRowSet(rows: seq<BidderRow>, rows': seq<BidderRow>, f: Filters)
    requires forall r :: r in rows <==> r in rows'
    ensures FilteredCodes(rows, f) == FilteredCodes(rows', f)
  {
    forall c ensures Present(Contributions(rows, f), c) <==> Present(Contributions(rows', f), c) {
      ContributionsPresent(rows, f, c);
      ContributionsPresent(rows', f, c);
      if exists i :: 0 <= i < |rows| && Selected(f, rows[i]) && rows[i].bidder == Some(c) {
        var i :| 0 <= i < |rows| && Selected(f, rows[i]) && rows[i].bidder == Some(c);
        assert rows[i] in rows';
        var j :| 0 <= j < |rows'| && rows'[j] == rows[i];
      }
      if exists i :: 0 <= i < |rows'| && Selected(f, rows'[i]) && rows'[i].bidder == Some(c) {
        var i :| 0 <= i < |rows'| && Selected(f, rows'[i]) && rows'[i].bidder == Some(c);
        assert rows'[i] in rows;
        var j :| 0 <= j < |rows| && rows[j] == rows'[i];
      }
    }
    OptionListByValues(Contributions(rows, f), Contributions(rows', f));
  }

  /** The code of every row, in row order. */
  function Codes(rows: seq<BidderRow>): (cs: seq<Option<string>>)
    ensures |cs| == |rows|
  {
    seq(|rows|, i requires 0 <= i < |rows| => rows[i].bidder)
  }

  /** With every filter at `'All'` and an empty search, a row is selected
      exactly when its code is truthy. */
  lemma InitialSelects(r: BidderRow)
    ensures Selected(Initial, r) <==> Truthy(r.bidder)
  {
    if Truthy(r.bidder) {
      MatchesEmpty(r.bidder.value);
      InitialInFilters(r);
    }
  }

  lemma MatchesEmpty(code: string)
    ensures Matches("", code)
  {
    assert IsBlank("");
  }

  lemma InitialInFilters(r: BidderRow)
    ensures InFilters(Initial, r)
  {
  }

  lemma InitialPresent(rows: seq<BidderRow>, c: string)
    ensures Present(Contributions(rows, Initial), c) == Present(Codes(rows), c)
  {
    var cs := Contributions(rows, Initial);
    var ds := Codes(rows);
    if Present(ds, c) {
      var i :| 0 <= i < |ds| && ds[i] == Some(c);
      InitialSelects(rows[i]);
      assert cs[i] == Some(c);
    }
    if Present(cs, c) {
      var i :| 0 <= i < |cs| && cs[i] == Some(c);
      InitialSelects(rows[i]);
      assert ds[i] == Some(c);
    }
  }

  /** With every filter at `'All'` and an empty search, the list is every
      non-empty bidder code of the rows, once each, in ascending order. */
  lemma FilteredInitial(rows: seq<BidderRow>)
    ensures FilteredCodes(rows, Initial) == OptionList(Codes(rows))
  {
    forall c ensures Present(Contributions(rows, Initial), c) <==> Present(Codes(rows), c) {
      InitialPresent(rows, c);
    }
    OptionListByValues(Contributions(rows, Initial), Codes(rows));
  }
}

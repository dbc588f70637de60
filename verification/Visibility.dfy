/**
 * The visibility and listing rules that the quote queries state in SQL, as
 * pure functions of a quote's facts (hidden or not, is the viewer an
 * involved party) and of the listing parameters.
 */
module Visibility {
  import opened Types

  /**
   * The single-quote query's condition: a privileged viewer sees the quote;
   * otherwise a hidden quote is shown to an involved party and an unhidden
   * quote to everyone.
   */
  function SingleGetVisible(privileged: bool, hidden: bool, involved: bool): bool {
    if privileged then true
    else if hidden && involved then true
    else !hidden
  }

  /**
   * The listing query's hidden-filter condition; `filter` is the optional
   * `hidden` parameter. With no filter there is no privileged branch.
   */
  function ListingHiddenFilter(filter: Option<bool>, privileged: bool, hidden: bool, involved: bool): bool {
    var filterByHidden := filter.Some?;
    var wantHidden := filter == Some(true);
    if filterByHidden && wantHidden && privileged then hidden
    else if filterByHidden && wantHidden then (if involved then hidden else false)
    else if filterByHidden && !wantHidden then !hidden
    else if hidden && involved then hidden
    else !hidden
  }

  /** The three listing modes, each in one line. */
  lemma ListingHiddenFilterModes(privileged: bool, hidden: bool, involved: bool)
    ensures ListingHiddenFilter(Some(true), privileged, hidden, involved) == (hidden && (privileged || involved))
    ensures ListingHiddenFilter(Some(false), privileged, hidden, involved) == !hidden
    ensures ListingHiddenFilter(None, privileged, hidden, involved) == (!hidden || involved)
  {
  }

  /**
   * With no hidden filter the listing shows a privileged viewer what it shows
   * anybody else, which is what single-get shows an unprivileged viewer; a
   * privileged viewer can see more through single-get.
   */
  lemma DefaultListingIgnoresPrivilege(privileged: bool, hidden: bool, involved: bool)
    ensures ListingHiddenFilter(None, privileged, hidden, involved) == SingleGetVisible(false, hidden, involved)
    ensures ListingHiddenFilter(None, privileged, hidden, involved) ==> SingleGetVisible(privileged, hidden, involved)
    ensures SingleGetVisible(true, true, false) && !ListingHiddenFilter(None, true, true, false)
  {
  }

  /** The listing limit: 10 when absent, `i64::MAX` for -1, any other value as given. */
  function EffectiveLimit(limit: Option<int>): int
  {
    match limit
    case None => 10
    case Some(x) => if x == -1 then I64_MAX else x
  }

  /** The `lt` cursor: a positive value keeps only smaller ids; an absent or non-positive one keeps all. */
  predicate BelowCursor(id: int, lt: Option<int>) {
    var bound := match lt case None => 0 case Some(x) => x;
    if bound > 0 then id < bound else true
  }

  /** `pattern` occurs in `text` starting at position `i`. */
  predicate OccursAt(text: string, pattern: string, i: int) {
    0 <= i <= |text| - |pattern| && text[i..i + |pattern|] == pattern
  }

  /** `text` contains `pattern` as a contiguous substring: the `%pattern%` match. */
  predicate Contains(text: string, pattern: string) {
    exists i | 0 <= i <= |text| - |pattern| :: OccursAt(text, pattern, i)
  }

  /** Every text contains the empty pattern, so an empty search term (`%%`) filters nothing. */
  lemma EmptyPatternMatches(text: string)
    ensures Contains(text, [])
  {
    assert OccursAt(text, [], 0);
  }

  /** The first `n` elements of `s`, or all of them if it has fewer: SQL's `LIMIT`. */
  function Take<T>(s: seq<T>, n: nat): (r: seq<T>)
    ensures r <= s
    ensures |r| == if n < |s| then n else |s|
  {
    if n < |s| then s[..n] else s
  }
}

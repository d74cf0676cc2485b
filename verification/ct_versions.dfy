/**
 * `get_latest_ct_version_for_standard`: the latest dated package of one terminology
 * standard, read from the Terminology product listing.
 *
 * Python's `datetime.strptime(v, '%Y-%m-%d')` is the parameter `isDate`; the model
 * makes no claim that string order agrees with calendar order.
 */
module CtVersions {
  import opened Wrappers
  import opened Text
  import opened CdiscLibrary

  /** `f"/{standard}-"`, the marker of a package of that standard inside an href. */
  function PackagePrefix(standard: string): (p: string)
    ensures |p| == |standard| + 2 && p[0] == '/' && p[|p| - 1] == '-'
  {
    "/" + standard + "-"
  }

  /** `href.split(prefix)[-1]`. */
  function VersionSuffix(href: string, prefix: string): string
    requires |prefix| > 0
  {
    Last(Split(href, prefix))
  }

  /** The link is a package of `standard` whose extracted suffix `v` is a valid date. */
  predicate Yields(link: Link, standard: string, isDate: string -> bool, v: string) {
    var href := link.href.GetOr("");
    var prefix := PackagePrefix(standard);
    Contains(href, prefix) && VersionSuffix(href, prefix) == v && isDate(v)
  }

  /** The `versions` list built by the loop, in link order. */
  function Candidates(links: seq<Link>, standard: string, isDate: string -> bool): (r: seq<string>)
    ensures forall v :: v in r <==> exists j :: 0 <= j < |links| && Yields(links[j], standard, isDate, v)
  {
    if links == [] then []
    else
      var rest := Candidates(links[1..], standard, isDate);
      var href := links[0].href.GetOr("");
      var prefix := PackagePrefix(standard);
      if Contains(href, prefix) && isDate(VersionSuffix(href, prefix)) then
        [VersionSuffix(href, prefix)] + rest
      else
        rest
  }

  /** An empty `versions` list means no link yields a date. */
  lemma {:induction false} NoCandidates(links: seq<Link>, standard: string, isDate: string -> bool)
    requires Candidates(links, standard, isDate) == []
    ensures forall j, v :: 0 <= j < |links| ==> !Yields(links[j], standard, isDate, v)
  {
    if links != [] {
      NoCandidates(links[1..], standard, isDate);
      forall j, v | 0 <= j < |links| ensures !Yields(links[j], standard, isDate, v) {
        if j > 0 {
          assert links[j] == links[1..][j - 1];
        }
      }
    }
  }

  /** `sorted(xs, reverse=True)[0]`: the greatest string under Python's order. */
  function MaxLex(xs: seq<string>): (r: string)
    requires |xs| > 0
    ensures r in xs
    ensures forall x :: x in xs ==> LexLe(x, r)
  {
    if |xs| == 1 then LexLeRefl(xs[0]); xs[0]
    else
      var m := MaxLex(xs[1..]);
      LexLeTotal(xs[0], m);
      assert forall x :: x in xs ==> x == xs[0] || x in xs[1..];
      if LexLe(xs[0], m) then m
      else
        assert forall x :: x in xs[1..] ==> LexLe(x, xs[0]) by {
          forall x | x in xs[1..] ensures LexLe(x, xs[0]) {
            LexLeTrans(x, m, xs[0]);
          }
        }
        LexLeRefl(xs[0]);
        xs[0]
  }

  /** The greatest element is unique, so the descending sort's head is determined. */
  lemma MaxLexUnique(xs: seq<string>, y: string)
    requires y in xs && forall x :: x in xs ==> LexLe(x, y)
    ensures MaxLex(xs) == y
  {
    LexLeAntisym(y, MaxLex(xs));
  }

  /** `data["_links"]["packages"]` when both keys are present. */
  function Packages(listing: Option<TerminologyListing>): Option<seq<Link>> {
    if listing.Some? && listing.value.links.Some? then listing.value.links.value.packages else None
  }

  /**
   * One lookup: fetch the listing once, keep the date-valid suffixes of hrefs that
   * contain `/{standard}-`, and answer the greatest, or `None`.
   */
  function LatestCtVersion(reg: Registry, isDate: string -> bool, standard: string): (r: Run<Option<string>>)
    ensures r.trace == [ListingRequest]
    ensures Packages(Get(reg.listings, ListingRequest)).None? ==> r.value.None?
    ensures r.value.Some? <==>
              var ps := Packages(Get(reg.listings, ListingRequest));
              ps.Some? && exists j, v :: 0 <= j < |ps.value| && Yields(ps.value[j], standard, isDate, v)
    ensures r.value.Some? ==>
              var links := Packages(Get(reg.listings, ListingRequest)).value;
              && (exists j :: 0 <= j < |links| && Yields(links[j], standard, isDate, r.value.value))
              && (forall j, v :: 0 <= j < |links| && Yields(links[j], standard, isDate, v) ==> LexLe(v, r.value.value))
  {
    var ps := Packages(Get(reg.listings, ListingRequest));
    if ps.None? then Run(None, [ListingRequest])
    else
      var cs := Candidates(ps.value, standard, isDate);
      if cs == [] then
        NoCandidates(ps.value, standard, isDate);
        Run(None, [ListingRequest])
      else Run(Some(MaxLex(cs)), [ListingRequest])
  }

  /**
   * The answer is literally the text following an occurrence of `/{standard}-` in
   * one of the listing's hrefs, and that text holds no further occurrence of it.
   */
  lemma LatestIsHrefTail(reg: Registry, isDate: string -> bool, standard: string)
    requires LatestCtVersion(reg, isDate, standard).value.Some?
    ensures var v := LatestCtVersion(reg, isDate, standard).value.value;
            var links := Packages(Get(reg.listings, ListingRequest)).value;
            && isDate(v)
            && exists j :: 0 <= j < |links| && IsSplitTail(links[j].href.GetOr(""), PackagePrefix(standard), v)
  {
    var v := LatestCtVersion(reg, isDate, standard).value.value;
    var links := Packages(Get(reg.listings, ListingRequest)).value;
    var j :| 0 <= j < |links| && Yields(links[j], standard, isDate, v);
    VersionSuffixIsSplitTail(links[j].href.GetOr(""), PackagePrefix(standard));
  }

  /** `v` is the text after an occurrence of `prefix` in `href` and holds no further occurrence. */
  ghost predicate IsSplitTail(href: string, prefix: string, v: string) {
    && !Contains(v, prefix)
    && exists k :: |prefix| <= k <= |href| && OccursAt(href, prefix, k - |prefix|) && href[k..] == v
  }

  /**
   * When the prefix occurs, the suffix follows an occurrence of the prefix and holds
   * no further one. For a prefix that overlaps itself this need not be the text
   * after the last occurrence; for `/adamct-` and `/sdtmct-` the two agree.
   */
  lemma VersionSuffixIsSplitTail(href: string, prefix: string)
    requires |prefix| > 0 && Contains(href, prefix)
    ensures IsSplitTail(href, prefix, VersionSuffix(href, prefix))
  {
    SplitLastIsSuffix(href, prefix);
    SplitCountsOccurrence(href, prefix);
    var k := LastPieceStart(href, prefix);
    assert OccursAt(href, prefix, k - |prefix|);
  }
}

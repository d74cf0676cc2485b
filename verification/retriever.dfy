/**
 * `get_variable_details` (adam_genius.py, lines 123-204): locate the variable's
 * data structure, fetch its record, collect and de-duplicate its codelist
 * references, then resolve each one against the latest package of its standard,
 * looking each standard's version up at most once.
 */
module Retriever {
  import opened Wrappers
  import opened Text
  import opened CdiscLibrary
  import opened CtVersions
  import opened Datasets
  import opened CodelistRefs
  import opened Terms

  /** The `details` dictionary. */
  datatype Details = Details(
    variable: Option<string>,
    labelText: Option<string>,
    dataType: Option<string>,
    core: Option<string>,
    notes: Option<string>,
    dataset: string,
    igVersion: string,
    codelistLinks: seq<string>,
    codelists: seq<CodelistInfo>)

  /** How a call ends: the `ValueError` for a missing version, `None`, or the details. */
  datatype Outcome = VersionRequired | NoDetails | Found(details: Details)

  /** The version the loop can use for a standard: the lookup's answer when it is truthy. */
  function UsableVersion(reg: Registry, isDate: string -> bool, standard: string): (r: Option<string>)
    ensures r.Some? ==> r.value != "" && LatestCtVersion(reg, isDate, standard).value == r
    ensures r.None? ==> LatestCtVersion(reg, isDate, standard).value in {None, Some("")}
  {
    var v := LatestCtVersion(reg, isDate, standard).value;
    if v.Some? && v.value != "" then v else None
  }

  /** `fetched_versions`: a standard's version, or `None` once its lookup failed. */
  type VersionCache = map<string, Option<string>>

  /** Every cached entry is what a fresh lookup would give. */
  predicate CacheAgrees(reg: Registry, isDate: string -> bool, cache: VersionCache) {
    forall s :: s in cache ==> cache[s] == UsableVersion(reg, isDate, s)
  }

  /** What the loop leaves behind: the collected codelists, the cache, and the requests made. */
  datatype Resolution = Resolution(codelists: seq<CodelistInfo>, cache: VersionCache, trace: seq<Request>)

  /** The standards a list of references mentions. */
  function Standards(todo: seq<CodelistRef>): set<string> {
    set i | 0 <= i < |todo| :: todo[i].standard
  }

  /** Lines 186-192: look the standard up unless it is cached, and cache the answer or the failure. */
  function CachedVersion(reg: Registry, isDate: string -> bool, standard: string, cache: VersionCache): (r: Run<VersionCache>)
    ensures standard in r.value && r.value.Keys == cache.Keys + {standard}
    ensures standard in cache ==> r.value == cache && r.trace == []
    ensures standard !in cache ==> r.value == cache[standard := UsableVersion(reg, isDate, standard)] && r.trace == [ListingRequest]
  {
    if standard in cache then Run(cache, [])
    else
      var latest := LatestCtVersion(reg, isDate, standard);
      var v := if latest.value.Some? && latest.value.value != "" then latest.value else None;
      Run(cache[standard := v], latest.trace)
  }

  /** Lines 194-199: with a usable version, fetch the codelist and keep it when found. */
  function FetchWith(reg: Registry, ref: CodelistRef, version: Option<string>): (r: Run<seq<CodelistInfo>>)
    ensures version.None? ==> r.value == [] && r.trace == []
    ensures version.Some? ==> r.trace == [PackageRequest(ref.standard, version.value)]
    ensures |r.value| <= 1
    ensures forall c :: c in r.value ==> c.standard == ref.standard && Some(c.version) == version
    ensures version.Some? ==>
              forall c :: c in r.value <==> GetCodelistTerms(reg, ref.id, ref.standard, version.value).value == Some(c)
  {
    if version.None? then Run([], [])
    else
      var got := GetCodelistTerms(reg, ref.id, ref.standard, version.value);
      Run(if got.value.Some? then [got.value.value] else [], got.trace)
  }

  /** The loop of lines 185-199 over the de-duplicated references. */
  function ResolveCodelists(reg: Registry, isDate: string -> bool, todo: seq<CodelistRef>, cache: VersionCache): (r: Resolution)
    ensures r.cache.Keys == cache.Keys + Standards(todo)
    ensures forall s :: s in cache ==> s in r.cache && r.cache[s] == cache[s]
    decreases |todo|
  {
    if todo == [] then Resolution([], cache, [])
    else
      var ref := todo[0];
      var lookup := CachedVersion(reg, isDate, ref.standard, cache);
      var fetched := FetchWith(reg, ref, lookup.value[ref.standard]);
      var rest := ResolveCodelists(reg, isDate, todo[1..], lookup.value);
      StandardsCons(todo);
      Resolution(fetched.value + rest.codelists, rest.cache, lookup.trace + fetched.trace + rest.trace)
  }

  lemma StandardsCons(todo: seq<CodelistRef>)
    requires todo != []
    ensures Standards(todo) == {todo[0].standard} + Standards(todo[1..])
  {
    forall s | s in Standards(todo) ensures s in {todo[0].standard} + Standards(todo[1..]) {
      var i :| 0 <= i < |todo| && todo[i].standard == s;
      if i > 0 {
        assert todo[1..][i - 1].standard == s;
      }
    }
    forall s | s in Standards(todo[1..]) ensures s in Standards(todo) {
      var i :| 0 <= i < |todo[1..]| && todo[1..][i].standard == s;
      assert todo[i + 1].standard == s;
    }
  }

  /**
   * The reference the cache must agree with: every reference resolved on its own,
   * looking its standard's version up afresh each time.
   */
  function FetchEach(reg: Registry, isDate: string -> bool, todo: seq<CodelistRef>): (r: seq<CodelistInfo>)
    ensures |r| <= |todo|
    ensures forall c :: c in r ==> c.standard in Standards(todo) && UsableVersion(reg, isDate, c.standard) == Some(c.version)
  {
    if todo == [] then []
    else
      var rest := FetchEach(reg, isDate, todo[1..]);
      StandardsCons(todo);
      FetchWith(reg, todo[0], UsableVersion(reg, isDate, todo[0].standard)).value + rest
  }

  /** The cache is invisible: with agreeing entries the loop collects what fresh lookups would, and keeps the cache agreeing. */
  lemma {:induction false} CacheTransparent(reg: Registry, isDate: string -> bool, todo: seq<CodelistRef>, cache: VersionCache)
    requires CacheAgrees(reg, isDate, cache)
    ensures ResolveCodelists(reg, isDate, todo, cache).codelists == FetchEach(reg, isDate, todo)
    ensures CacheAgrees(reg, isDate, ResolveCodelists(reg, isDate, todo, cache).cache)
    decreases |todo|
  {
    if todo != [] {
      var lookup := CachedVersion(reg, isDate, todo[0].standard, cache);
      LookupStep(reg, isDate, todo[0].standard, cache);
      CacheTransparent(reg, isDate, todo[1..], lookup.value);
    }
  }

  /** Lookups of the Terminology listing: one per standard not already cached, however many references share it. */
  lemma {:induction false} ListingLookups(reg: Registry, isDate: string -> bool, todo: seq<CodelistRef>, cache: VersionCache)
    ensures CountRequests(ResolveCodelists(reg, isDate, todo, cache).trace, ListingRequest) == |Standards(todo) - cache.Keys|
    decreases |todo|
  {
    if todo == [] {
      assert Standards(todo) == {};
    } else {
      var ref := todo[0];
      var lookup := CachedVersion(reg, isDate, ref.standard, cache);
      var fetched := FetchWith(reg, ref, lookup.value[ref.standard]);
      var rest := ResolveCodelists(reg, isDate, todo[1..], lookup.value);
      ListingLookups(reg, isDate, todo[1..], lookup.value);
      CountRequestsAppend(lookup.trace + fetched.trace, rest.trace, ListingRequest);
      CountRequestsAppend(lookup.trace, fetched.trace, ListingRequest);
      FetchNotListing(reg, ref, lookup.value[ref.standard]);
      StandardsCons(todo);
      NewKeysStep(Standards(todo[1..]), cache.Keys, ref.standard);
    }
  }

  /** The package request is never the listing request. */
  lemma FetchNotListing(reg: Registry, ref: CodelistRef, version: Option<string>)
    ensures CountRequests(FetchWith(reg, ref, version).trace, ListingRequest) == 0
    ensures CountPackageRequests(FetchWith(reg, ref, version).trace) == if version.Some? then 1 else 0
  {
    if version.Some? {
      assert FetchWith(reg, ref, version).trace == [PackageRequest(ref.standard, version.value)];
    }
  }

  /** Set bookkeeping for one step: a standard seen for the first time adds exactly one lookup. */
  lemma NewKeysStep(rest: set<string>, keys: set<string>, s: string)
    ensures |({s} + rest) - keys| == (if s in keys then 0 else 1) + |rest - (keys + {s})|
  {
    if s in keys {
      assert ({s} + rest) - keys == rest - (keys + {s});
    } else {
      assert ({s} + rest) - keys == {s} + (rest - (keys + {s}));
    }
  }

  /** How many references have a standard whose version can be used. */
  function CountResolvable(reg: Registry, isDate: string -> bool, todo: seq<CodelistRef>): nat {
    if todo == [] then 0
    else (if UsableVersion(reg, isDate, todo[0].standard).Some? then 1 else 0) + CountResolvable(reg, isDate, todo[1..])
  }

  /** A version lookup requests no package, and an agreeing cache stays agreeing. */
  lemma LookupStep(reg: Registry, isDate: string -> bool, standard: string, cache: VersionCache)
    requires CacheAgrees(reg, isDate, cache)
    ensures var lookup := CachedVersion(reg, isDate, standard, cache);
            && CountPackageRequests(lookup.trace) == 0
            && CacheAgrees(reg, isDate, lookup.value)
            && lookup.value[standard] == UsableVersion(reg, isDate, standard)
  {
  }

  /** One package request per reference whose standard has a version; none for a failed standard's references. */
  lemma {:induction false} PackageLookups(reg: Registry, isDate: string -> bool, todo: seq<CodelistRef>, cache: VersionCache)
    requires CacheAgrees(reg, isDate, cache)
    ensures CountPackageRequests(ResolveCodelists(reg, isDate, todo, cache).trace) == CountResolvable(reg, isDate, todo)
    decreases |todo|
  {
    if todo != [] {
      var ref := todo[0];
      var lookup := CachedVersion(reg, isDate, ref.standard, cache);
      var fetched := FetchWith(reg, ref, lookup.value[ref.standard]);
      var rest := ResolveCodelists(reg, isDate, todo[1..], lookup.value);
      LookupStep(reg, isDate, ref.standard, cache);
      PackageLookups(reg, isDate, todo[1..], lookup.value);
      CountPackageRequestsAppend(lookup.trace + fetched.trace, rest.trace);
      CountPackageRequestsAppend(lookup.trace, fetched.trace);
      FetchNotListing(reg, ref, lookup.value[ref.standard]);
    }
  }

  /** The references whose standard is not `s`. */
  function WithoutStandard(todo: seq<CodelistRef>, s: string): (r: seq<CodelistRef>)
    ensures |r| <= |todo|
    ensures forall i :: 0 <= i < |r| ==> r[i].standard != s
    ensures Standards(r) == Standards(todo) - {s}
    ensures forall x :: x in r <==> x in todo && x.standard != s
  {
    if todo == [] then []
    else
      var rest := WithoutStandard(todo[1..], s);
      StandardsCons(todo);
      if todo[0].standard == s then rest
      else
        StandardsCons([todo[0]] + rest);
        assert ([todo[0]] + rest)[1..] == rest;
        [todo[0]] + rest
  }

  /** A standard whose version lookup fails contributes no codelist, and the other standards' codelists are unaffected. */
  lemma {:induction false} FailedStandardSkipped(reg: Registry, isDate: string -> bool, todo: seq<CodelistRef>, s: string)
    requires UsableVersion(reg, isDate, s).None?
    ensures FetchEach(reg, isDate, todo) == FetchEach(reg, isDate, WithoutStandard(todo, s))
    ensures forall c :: c in FetchEach(reg, isDate, todo) ==> c.standard != s
    decreases |todo|
  {
    if todo != [] {
      FailedStandardSkipped(reg, isDate, todo[1..], s);
      if todo[0].standard != s {
        var w := WithoutStandard(todo[1..], s);
        assert ([todo[0]] + w)[1..] == w;
      }
    }
  }

  // ---- The whole call ----

  /** `data["_links"]["codelist"]` when both keys are present, else no links. */
  function RecordLinks(rec: VariableRecord): seq<Link> {
    if rec.links.Some? && rec.links.value.codelist.Some? then rec.links.value.codelist.value else []
  }

  /** Lines 160-179: the unique `(id, standard, href)` tuples, or none when no href parsed. */
  function UniqueRefs(rec: VariableRecord): (r: seq<CodelistRef>)
    ensures DedupOf(r, AcceptedRefs(PresentHrefs(RecordLinks(rec))))
    ensures forall x :: x in r ==> IsKnownStandard(x.standard) && x.href in PresentHrefs(RecordLinks(rec))
  {
    var accepted := AcceptedRefs(PresentHrefs(RecordLinks(rec)));
    if accepted == [] then []
    else
      var r := Dedup(accepted);
      forall x | x in r ensures IsKnownStandard(x.standard) && x.href in PresentHrefs(RecordLinks(rec)) {
        var i :| 0 <= i < |r| && r[i] == x;
        assert IsLastWithId(accepted, x);
      }
      r
  }

  /**
   * Lines 183-199: with no reference nothing is requested; otherwise the loop runs
   * over the references with a cache that starts empty on every call, so it ends
   * holding exactly the standards the references name.
   */
  function ResolveRefs(reg: Registry, isDate: string -> bool, refs: seq<CodelistRef>): (r: Resolution)
    ensures refs == [] ==> r.trace == [] && r.codelists == []
    ensures r.cache.Keys == Standards(refs)
    ensures refs != [] ==> r == ResolveCodelists(reg, isDate, refs, map[])
  {
    if refs == [] then
      NoStandards(refs);
      Resolution([], map[], [])
    else ResolveCodelists(reg, isDate, refs, map[])
  }

  /** The version lookups, the package lookups and the resulting codelists of one record. */
  function ResolveRecord(reg: Registry, isDate: string -> bool, rec: VariableRecord): Resolution {
    ResolveRefs(reg, isDate, UniqueRefs(rec))
  }

  /** The record behind a variable URL, when the request succeeds with a non-empty object. */
  function RecordAt(reg: Registry, req: Request): Option<VariableRecord> {
    var rec := Get(reg.variables, req);
    if rec.Some? && !IsEmptyRecord(rec.value) then rec else None
  }

  /**
   * Lines 138-204, once the dataset is known: request the variable record and
   * build the details from it and from the resolution of its codelist references.
   */
  function FetchDetails(reg: Registry, isDate: string -> bool, variable: string, igVersion: string, dataset: string): (r: Run<Outcome>)
    ensures var req := VariableRequest(igVersion, dataset, variable);
            && |r.trace| >= 1 && r.trace[0] == req
            && !r.value.VersionRequired?
            && (r.value.Found? <==> RecordAt(reg, req).Some?)
            && (r.value.NoDetails? ==> r.trace == [req])
    ensures r.value.Found? ==>
              var rec := RecordAt(reg, VariableRequest(igVersion, dataset, variable)).value;
              var d := r.value.details;
              && d.variable == rec.name && d.labelText == rec.labelText && d.dataType == rec.simpleDatatype
              && d.core == rec.core && d.notes == rec.description
              && d.dataset == dataset && d.igVersion == igVersion
              && d.codelistLinks == PresentHrefs(RecordLinks(rec))
              && d.codelists == ResolveRecord(reg, isDate, rec).codelists
              && r.trace[1..] == ResolveRecord(reg, isDate, rec).trace
  {
    var req := VariableRequest(igVersion, dataset, variable);
    var rec := RecordAt(reg, req);
    if rec.None? then Run(NoDetails, [req])
    else
      var res := ResolveRecord(reg, isDate, rec.value);
      var d := Details(
        rec.value.name, rec.value.labelText, rec.value.simpleDatatype, rec.value.core, rec.value.description,
        dataset, igVersion, PresentHrefs(RecordLinks(rec.value)), res.codelists);
      Run(Found(d), [req] + res.trace)
  }

  /**
   * `get_variable_details(adam_variable, adamig_version)`. An empty version raises
   * before any request; otherwise the structure tree is requested first, and a
   * missing dataset, a failed record request or an empty record end with `None`.
   */
  function GetVariableDetails(reg: Registry, isDate: string -> bool, variable: string, version: string): (r: Run<Outcome>)
    ensures r.value.VersionRequired? <==> version == ""
    ensures version == "" ==> r.trace == []
    ensures version != "" ==> |r.trace| >= 1 && r.trace[0] == TreeRequest(Hyphenate(version))
    ensures version != "" && FindVariableDataset(reg, variable, version).value.None? ==>
              r.value == NoDetails && r.trace == [TreeRequest(Hyphenate(version))]
    ensures version != "" && FindVariableDataset(reg, variable, version).value.Some? ==>
              var fetched := FetchDetails(reg, isDate, variable, Hyphenate(version),
                                          FindVariableDataset(reg, variable, version).value.value.name);
              r.value == fetched.value && r.trace == [TreeRequest(Hyphenate(version))] + fetched.trace
  {
    if version == "" then Run(VersionRequired, [])
    else
      var igVersion := Hyphenate(version);
      SecondRewriteHarmless(reg, variable, version);
      var found := FindVariableDataset(reg, variable, igVersion);
      if found.value.None? then Run(NoDetails, found.trace)
      else
        var fetched := FetchDetails(reg, isDate, variable, igVersion, found.value.value.name);
        Run(fetched.value, found.trace + fetched.trace)
  }

  /** The codelists of the details are what resolving each unique reference afresh gives. */
  lemma FoundCodelists(reg: Registry, isDate: string -> bool, variable: string, igVersion: string, dataset: string)
    requires FetchDetails(reg, isDate, variable, igVersion, dataset).value.Found?
    ensures var rec := RecordAt(reg, VariableRequest(igVersion, dataset, variable)).value;
            FetchDetails(reg, isDate, variable, igVersion, dataset).value.details.codelists
              == FetchEach(reg, isDate, UniqueRefs(rec))
  {
    var rec := RecordAt(reg, VariableRequest(igVersion, dataset, variable)).value;
    var refs := UniqueRefs(rec);
    if refs != [] {
      CacheTransparent(reg, isDate, refs, map[]);
    }
  }

  /** Only the two terminology standards are ever parsed, so a record names at most two. */
  lemma KnownStandardsOnly(refs: seq<CodelistRef>)
    requires forall x :: x in refs ==> IsKnownStandard(x.standard)
    ensures |Standards(refs)| <= 2
  {
    var known := {"sdtmct", "adamct"};
    forall s | s in Standards(refs) ensures s in known {
      var i :| 0 <= i < |refs| && refs[i].standard == s;
      assert refs[i] in refs;
    }
    assert known == Standards(refs) + (known - Standards(refs));
  }

  /** Starting from the empty cache, one listing request per distinct standard. */
  lemma FreshListingLookups(reg: Registry, isDate: string -> bool, todo: seq<CodelistRef>)
    ensures CountRequests(ResolveCodelists(reg, isDate, todo, map[]).trace, ListingRequest) == |Standards(todo)|
  {
    var empty: VersionCache := map[];
    ListingLookups(reg, isDate, todo, empty);
    assert Standards(todo) - empty.Keys == Standards(todo);
  }

  /** Resolving a record requests the listing once per distinct standard, so at most twice. */
  lemma RecordListingLookups(reg: Registry, isDate: string -> bool, rec: VariableRecord)
    ensures CountRequests(ResolveRecord(reg, isDate, rec).trace, ListingRequest) == |Standards(UniqueRefs(rec))|
    ensures |Standards(UniqueRefs(rec))| <= 2
  {
    var refs := UniqueRefs(rec);
    KnownStandardsOnly(refs);
    if refs == [] {
      NoStandards(refs);
    } else {
      FreshListingLookups(reg, isDate, refs);
    }
  }

  /**
   * A codelist linked several times is resolved once: the references collapse
   * to the last one, the listing is requested once, and at most one package
   * request yields at most one codelist.
   */
  lemma RepeatedIdFetchedOnce(reg: Registry, isDate: string -> bool, rec: VariableRecord)
    requires var accepted := AcceptedRefs(PresentHrefs(RecordLinks(rec)));
             |accepted| > 0 && forall j :: 0 <= j < |accepted| ==> accepted[j].id == accepted[0].id
    ensures var accepted := AcceptedRefs(PresentHrefs(RecordLinks(rec)));
            UniqueRefs(rec) == [accepted[|accepted| - 1]]
    ensures var res := ResolveRecord(reg, isDate, rec);
            && |res.codelists| <= 1
            && CountRequests(res.trace, ListingRequest) == 1
            && CountPackageRequests(res.trace) <= 1
  {
    var accepted := AcceptedRefs(PresentHrefs(RecordLinks(rec)));
    DedupRepeatedId(accepted);
    SingleRefRequests(reg, isDate, UniqueRefs(rec));
  }

  /** One reference costs one listing request and at most one package request. */
  lemma SingleRefRequests(reg: Registry, isDate: string -> bool, refs: seq<CodelistRef>)
    requires |refs| == 1
    ensures var res := ResolveCodelists(reg, isDate, refs, map[]);
            && |res.codelists| <= 1
            && CountRequests(res.trace, ListingRequest) == 1
            && CountPackageRequests(res.trace) <= 1
  {
    var empty: VersionCache := map[];
    FreshListingLookups(reg, isDate, refs);
    StandardsCons(refs);
    assert Standards(refs[1..]) == {};
    PackageLookups(reg, isDate, refs, empty);
  }

  lemma NoStandards(refs: seq<CodelistRef>)
    requires refs == []
    ensures Standards(refs) == {}
  {
  }

  /** A whole call requests the Terminology listing at most twice, once per distinct standard. */
  lemma ListingLookedUpAtMostTwice(reg: Registry, isDate: string -> bool, variable: string, version: string)
    ensures CountRequests(GetVariableDetails(reg, isDate, variable, version).trace, ListingRequest) <= 2
  {
    var r := GetVariableDetails(reg, isDate, variable, version);
    if version != "" {
      var igVersion := Hyphenate(version);
      var found := FindVariableDataset(reg, variable, version);
      if found.value.None? {
        assert r.trace == [TreeRequest(igVersion)];
      } else {
        var dataset := found.value.value.name;
        var fetched := FetchDetails(reg, isDate, variable, igVersion, dataset);
        CountRequestsAppend([TreeRequest(igVersion)], fetched.trace, ListingRequest);
        CountRequestsAppend([fetched.trace[0]], fetched.trace[1..], ListingRequest);
        assert fetched.trace == [fetched.trace[0]] + fetched.trace[1..];
        if fetched.value.Found? {
          RecordListingLookups(reg, isDate, RecordAt(reg, VariableRequest(igVersion, dataset, variable)).value);
        }
      }
    }
  }

  /** Without an accepted codelist href, nothing is requested after the variable record. */
  lemma NoRefsNoLookups(reg: Registry, isDate: string -> bool, variable: string, igVersion: string, dataset: string)
    requires FetchDetails(reg, isDate, variable, igVersion, dataset).value.Found?
    requires UniqueRefs(RecordAt(reg, VariableRequest(igVersion, dataset, variable)).value) == []
    ensures FetchDetails(reg, isDate, variable, igVersion, dataset).trace == [VariableRequest(igVersion, dataset, variable)]
    ensures FetchDetails(reg, isDate, variable, igVersion, dataset).value.details.codelists == []
  {
  }
}

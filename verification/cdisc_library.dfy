/**
 * The CDISC Library registry as seen by the retriever: the JSON shapes of the four
 * endpoints it reads, the URLs it builds, and the registry itself as a value mapping
 * each URL to its decoded response. A URL that is not in the map is a request that
 * got a response for which `_make_request` returned `None`: a non-2xx status or a
 * body that is not JSON. A request that gets no response at all escapes
 * `_make_request` as an exception and is not modelled. Every lookup records its
 * request in a trace.
 */
module CdiscLibrary {
  import opened Wrappers
  import opened Text

  const BaseUrl: string := "https://library.cdisc.org/api"

  /** A hyperlink object `{"href": ...}`; `href` is `None` when the key is absent. */
  datatype Link = Link(href: Option<string>)

  /** `GET /mdr/products/Terminology`: `_links.packages[]`. */
  datatype ListingLinks = ListingLinks(packages: Option<seq<Link>>)
  datatype TerminologyListing = TerminologyListing(links: Option<ListingLinks>)

  /** `GET /mdr/adam/adamig-{version}`: the structure tree. Absent lists read as empty. */
  datatype AnalysisVariable = AnalysisVariable(name: Option<string>)
  datatype VariableSet = VariableSet(analysisVariables: seq<AnalysisVariable>)
  datatype DataStructure = DataStructure(
    name: Option<string>,
    analysisVariables: seq<AnalysisVariable>,
    analysisVariableSets: seq<VariableSet>)
  datatype StructureTree = StructureTree(dataStructures: Option<seq<DataStructure>>)

  /**
   * `GET .../datastructures/{dataset}/variables/{name}`: the variable record.
   * `unmodelledKeys` counts the record's other keys; it only matters for telling
   * the empty object `{}` (falsy in Python) from a populated one.
   */
  datatype VariableLinks = VariableLinks(codelist: Option<seq<Link>>)
  datatype VariableRecord = VariableRecord(
    name: Option<string>,
    labelText: Option<string>, // the JSON key `label` (a Dafny keyword)
    simpleDatatype: Option<string>,
    core: Option<string>,
    description: Option<string>,
    links: Option<VariableLinks>,
    unmodelledKeys: nat)

  /**
   * `GET /mdr/ct/packages/{standard}-{date}`: a controlled-terminology package.
   * As for variable records, `unmodelledKeys` only tells `{}` from a populated codelist.
   */
  datatype CtTerm = CtTerm(conceptId: Option<string>, submissionValue: Option<string>, preferredTerm: Option<string>)
  datatype CtCodelist = CtCodelist(
    conceptId: Option<string>,
    submissionValue: Option<string>,
    name: Option<string>,
    extensible: Option<bool>,
    terms: Option<seq<CtTerm>>,
    unmodelledKeys: nat)
  datatype CtPackage = CtPackage(codelists: Option<seq<CtCodelist>>)

  /** The registry's answers, by URL text, fixed for the duration of one resolution run. */
  datatype Registry = Registry(
    listings: map<string, TerminologyListing>,
    trees: map<string, StructureTree>,
    variables: map<string, VariableRecord>,
    packages: map<string, CtPackage>)

  /**
   * The four requests the retriever makes. `Url` is the text handed to
   * `_make_request`; traces record the request, and `UrlKinds` shows that the
   * URL text alone tells a listing or package request from the others.
   */
  datatype Request =
    | ListingRequest
    | TreeRequest(igVersion: string)
    | VariableRequest(igVersion: string, dataset: string, variable: string)
    | PackageRequest(standard: string, version: string)
  {
    /** The f-strings of lines 58, 94, 138 and 210. */
    function Url(): (r: string)
      ensures StartsWith(r, BaseUrl + "/mdr/")
      ensures this.VariableRequest? ==> StartsWith(r, BaseUrl + "/mdr/adam/adamig-" + igVersion + "/datastructures/")
      ensures this.PackageRequest? ==> IsPackageUrl(r) && r[|PackagesPath|..] == standard + "-" + version
    {
      match this
      case ListingRequest => BaseUrl + "/mdr/products/Terminology"
      case TreeRequest(v) => BaseUrl + "/mdr/adam/adamig-" + v
      case VariableRequest(v, dataset, variable) =>
        BaseUrl + "/mdr/adam/adamig-" + v + "/datastructures/" + dataset + "/variables/" + variable
      case PackageRequest(standard, version) => PackagesPath + standard + "-" + version
    }
  }

  /** A result together with the requests made to compute it, in request order. */
  datatype Run<T> = Run(value: T, trace: seq<Request>)

  /** `_make_request(req.Url())`: the decoded answer, or `None` when the request failed. */
  function Get<T>(m: map<string, T>, req: Request): Option<T> {
    if req.Url() in m then Some(m[req.Url()]) else None
  }

  /** Python truthiness of a decoded variable record: `{}` is falsy. */
  predicate IsEmptyRecord(r: VariableRecord) {
    && r.name.None? && r.labelText.None? && r.simpleDatatype.None? && r.core.None?
    && r.description.None? && r.links.None? && r.unmodelledKeys == 0
  }

  /** Python truthiness of a decoded codelist object. */
  predicate IsEmptyCodelist(c: CtCodelist) {
    && c.conceptId.None? && c.submissionValue.None? && c.name.None? && c.extensible.None?
    && c.terms.None? && c.unmodelledKeys == 0
  }

  const PackagesPath: string := BaseUrl + "/mdr/ct/packages/"

  /** A URL naming some terminology package. */
  predicate IsPackageUrl(u: string) {
    |PackagesPath| <= |u| && u[..|PackagesPath|] == PackagesPath
  }

  /** How many times `req` was made. */
  function CountRequests(trace: seq<Request>, req: Request): nat {
    if trace == [] then 0
    else (if trace[0] == req then 1 else 0) + CountRequests(trace[1..], req)
  }

  /** How many package requests a trace holds. */
  function CountPackageRequests(trace: seq<Request>): nat {
    if trace == [] then 0
    else (if trace[0].PackageRequest? then 1 else 0) + CountPackageRequests(trace[1..])
  }

  lemma {:induction false} CountRequestsAppend(a: seq<Request>, b: seq<Request>, req: Request)
    ensures CountRequests(a + b, req) == CountRequests(a, req) + CountRequests(b, req)
  {
    if a != [] {
      assert (a + b)[1..] == a[1..] + b;
      CountRequestsAppend(a[1..], b, req);
    } else {
      assert a + b == b;
    }
  }

  lemma {:induction false} CountPackageRequestsAppend(a: seq<Request>, b: seq<Request>)
    ensures CountPackageRequests(a + b) == CountPackageRequests(a) + CountPackageRequests(b)
  {
    if a != [] {
      assert (a + b)[1..] == a[1..] + b;
      CountPackageRequestsAppend(a[1..], b);
    } else {
      assert a + b == b;
    }
  }

  /**
   * The URL text tells the request kinds apart by the path segment after `/mdr/`:
   * only the listing request has the listing URL, and exactly the package
   * requests have a URL under the packages path. So counting requests counts
   * the URLs `_make_request` receives.
   */
  lemma UrlKinds(req: Request)
    ensures req.Url() == ListingRequest.Url() <==> req.ListingRequest?
    ensures IsPackageUrl(req.Url()) <==> req.PackageRequest?
  {
    var n := |BaseUrl| + 5;
    var listing := ListingRequest.Url();
    assert listing[n] == 'p' && PackagesPath[n] == 'c';
    match req
    case ListingRequest =>
      assert listing[..|PackagesPath|][n] == 'p';
    case TreeRequest(v) =>
      assert req.Url()[n] == 'a';
    case VariableRequest(v, dataset, variable) =>
      assert req.Url()[n] == 'a';
    case PackageRequest(standard, version) =>
      assert req.Url()[n] == 'c';
      assert req.Url()[..|PackagesPath|] == PackagesPath;
  }
}

# ADaM metadata retrieval, modelled in Dafny

This project models the metadata resolution engine of ADaM-Genius (`adam_genius.py`,
class `ADaMMetadataRetriever`, and the row builder of `write_to_csv`). Given an ADaM
variable name and an ADaMIG version, the engine works in five steps:

1. It finds the data structure (ADSL, OCCDS, ...) that declares the variable, scanning
   the implementation guide's structure tree.
2. It fetches the variable's record.
3. It reads the codelist links, keeps those shaped like `.../{sdtmct|adamct}/.../C<digits>`,
   and deduplicates them by codelist id.
4. For each codelist it resolves the latest controlled-terminology package of its
   standard, cached per standard, and fetches the codelist from that package. The match
   is by concept id, falling back to submission value. The terms are sorted by
   submission value.
5. It lays the result out as CSV rows.

The CDISC Library is a `Registry`: four maps from URL text to the JSON shape that URL
returns. A missing key means the request failed. The four kinds of request the
retriever makes form the datatype `Request`, whose `Url` is the text passed to
`_make_request`. Every operation returns a `Run` holding its value and the trace
of requests it made, so the contracts can count requests.

The modules, in dependency order:

| module | file | models |
|---|---|---|
| `Wrappers` | wrappers.dfy | `Option` |
| `Text` | text.dfy | `str.replace`, `str.upper`, `str.split`, `str.join` and Python's string order |
| `CdiscLibrary` | cdisc_library.dfy | the JSON shapes, the URLs and the registry |
| `CtVersions` | ct_versions.dfy | `get_latest_ct_version_for_standard` |
| `Datasets` | datasets.dfy | `_find_variable_dataset` |
| `CodelistRefs` | codelist_refs.dfy | href parsing and the deduplication in `get_variable_details` |
| `Terms` | terms.dfy | `get_codelist_terms` and the term sort |
| `Retriever` | retriever.dfy | `get_variable_details` and its version cache |
| `Export` | export.dfy | the rows built by `write_to_csv` |

Three behaviours of the code are easy to misread:

- **Deduplication.** The dictionary at line 179 is keyed by the codelist id, so ids are
  compared exactly, not case-insensitively. Each id keeps the position of its first
  occurrence and carries the last tuple with that id (`CodelistRefs.Dedup`).
- **Package fetches.** Only the version lookup is cached. The listing is requested once
  per standard, but each deduplicated codelist requests its own package
  (`Retriever.ListingLookups`, `Retriever.PackageLookups`).
- **CSV rows.** `write_to_csv` prepares a base row with `Parameter` `"Variable"` but never
  appends it. The first five rows are Label, DataType, Core, CDISCNotes and CodelistLinks
  (`Export.AttributeRows`).

## Model

| member | source | states |
|---|---|---|
| Text.Hyphenate | adam_genius.py:92 | `replace('.', '-')` keeps the length, turns every dot into a hyphen, leaves no dot, and keeps every other character |
| Text.JoinSplit | adam_genius.py:73 | `str.split` loses nothing: joining the pieces with the separator gives back the string |
| Text.SplitCountsOccurrence | adam_genius.py:71-73 | the separator occurs in the string iff splitting yields at least two pieces |
| Text.LexLeTotal | adam_genius.py:85 | Python's string order compares any two strings |
| Text.LexLeTrans | adam_genius.py:85 | Python's string order is transitive |
| Text.LexLeAntisym | adam_genius.py:85 | two strings that are each at most the other are equal, so a maximum is unique |
| CdiscLibrary.Request.Url | adam_genius.py:58 | the f-strings of lines 58, 94, 138 and 210: every URL lies under the library's `/mdr/` root; a variable's URL lies under the `datastructures/` path of its guide version's tree URL; a package URL lies under the packages path and ends in `{standard}-{version}` |
| CdiscLibrary.UrlKinds | adam_genius.py:58 | of the URLs built at lines 58, 94, 138 and 210, only the listing request has the listing URL, and exactly the package requests have a URL under `/mdr/ct/packages/`, so counting requests counts the URLs requested |
| CtVersions.Candidates | adam_genius.py:65-78 | a string is collected iff some package href contains `/{standard}-` and its `split` tail, the text after an occurrence of the prefix that holds no further occurrence, is a valid date |
| CtVersions.NoCandidates | adam_genius.py:80-82 | an empty version list means no package link yields a dated suffix |
| CtVersions.MaxLex | adam_genius.py:85 | the head of the descending sort is one of the versions and no version is greater |
| CtVersions.MaxLexUnique | adam_genius.py:85 | any greatest version is that head, so how ties are broken cannot change the answer |
| CtVersions.LatestCtVersion | adam_genius.py:55-87 | one listing request; no answer when `_links`/`packages` is missing or no suffix is a valid date; otherwise the greatest date-valid suffix |
| CtVersions.VersionSuffixIsSplitTail | adam_genius.py:71-73 | `href.split(prefix)[-1]` is the text after an occurrence of the prefix and holds no further occurrence |
| CtVersions.LatestIsHrefTail | adam_genius.py:67-76 | the latest version is a valid date that literally follows an occurrence of `/{standard}-` in one of the listing's hrefs and holds no further occurrence |
| Datasets.ScanVariables | adam_genius.py:108-111 | the direct scan succeeds iff some direct variable's upper-cased name equals the upper-cased query |
| Datasets.ScanSets | adam_genius.py:114-118 | the set scan succeeds iff some variable of some variable set matches |
| Datasets.Locate | adam_genius.py:102-118 | no answer iff no structure both has a name and holds the variable; otherwise the first such structure's name, flagged as direct when its direct variables, checked first, hold it |
| Datasets.FindVariableDataset | adam_genius.py:89-121 | one request for the tree of the hyphenated version; no answer when `dataStructures` is missing or no named structure owns the variable; otherwise the first owner |
| Datasets.SecondRewriteHarmless | adam_genius.py:130-132 | rewriting the version again inside the locator changes nothing |
| Datasets.LocateCaseInsensitive | adam_genius.py:109 | an upper-cased query finds the same structure as the original query |
| CodelistRefs.ParseHref | adam_genius.py:165-172 | an accepted href keeps its text, ends in a concept code `C<digits>`, names a known standard three pieces from the end, and has the shape `pre/standard/middle/id` |
| CodelistRefs.ParseBuiltHref | adam_genius.py:165-172 | every href of that shape with a known standard and a concept code is accepted, with that id and standard |
| CodelistRefs.ParsedShape | adam_genius.py:166-169 | at least three `/`-pieces mean the href is some prefix, then the standard piece, a middle piece and the id piece |
| CodelistRefs.PresentHrefs | adam_genius.py:161-164 | a string is in `CodelistLinks` iff it is the non-empty href of some codelist link, and there are no more entries than links |
| CodelistRefs.PresentHrefsAppend | adam_genius.py:161-164 | the hrefs of two runs of links are the first run's hrefs followed by the second's, so link order and repeats are kept |
| CodelistRefs.PresentHrefsSnoc | adam_genius.py:161-164 | the loop's `append`: one more link adds its href, when it has a non-empty one, at the end |
| CodelistRefs.AcceptedRefs | adam_genius.py:160-176 | a reference is collected iff its href is present and parses to it |
| CodelistRefs.AcceptedRefsAppend | adam_genius.py:163-172 | the tuples of two runs of hrefs are the first run's tuples followed by the second's, so href order and repeated ids are kept for the deduplication |
| CodelistRefs.AcceptedRefsSnoc | adam_genius.py:163-172 | the loop's `append`: one more href adds its tuple, when it parses, at the end |
| CodelistRefs.PutKeepsDedup | adam_genius.py:179 | one dict insertion keeps the result a deduplication of the input seen so far |
| CodelistRefs.Dedup | adam_genius.py:179 | ids are distinct, every id of the input appears, each entry is the last tuple with its id, and entries are in first-occurrence order |
| CodelistRefs.DedupRepeatedId | adam_genius.py:179 | references all sharing one id collapse to the single last one |
| Terms.SortByTerm | adam_genius.py:255 | `list.sort(key=TERM)`: the result is ordered by TERM, is a permutation of the input, and keeps the input order among equal TERMs |
| Terms.StableSortUnique | adam_genius.py:255 | two lists that are both ordered by TERM and agree on the order within each TERM are equal, so the stable sort is determined |
| Terms.FirstMatch | adam_genius.py:218-222 | a match is found iff some codelist's upper-cased field equals the upper-cased code, and the one found is the first |
| Terms.MatchCodelist | adam_genius.py:217-234 | a non-empty first concept-id match wins; when there is none, or it is the falsy empty object, a non-empty first submission-value match; nothing when neither field matches |
| Terms.EmptyCodelistNeedsEmptyCode | adam_genius.py:224-232 | an empty codelist object, which `if not target_codelist` (lines 224 and 232) would reject, can only match the empty code |
| Terms.ToCodelistInfo | adam_genius.py:237-255 | ExtensibleYN is "Yes" iff `extensible` is true, else "No"; the standard, version, id, code and name are carried; terms are sorted, a permutation of the codelist's terms, and terms with equal TERM keep their package order |
| Terms.GetCodelistTerms | adam_genius.py:206-261 | one request for the package; a result iff the package and its `codelists` are there and `MatchCodelist` picks a codelist, which is then the conceptId-first choice, tagged with the standard and version |
| Retriever.UsableVersion | adam_genius.py:186-192 | a cached version is a non-empty latest version; a failed or empty lookup caches nothing usable |
| Retriever.CachedVersion | adam_genius.py:185-192 | a cached standard costs no request and leaves the cache as it was; an uncached one costs one listing request and adds its outcome |
| Retriever.FetchWith | adam_genius.py:194-199 | a failed standard issues no request and adds nothing; otherwise one package request, and a codelist is added iff `get_codelist_terms` returns it, carrying that standard and version |
| Retriever.ResolveCodelists | adam_genius.py:182-199 | the loop adds exactly the standards it meets to the cache and never changes an entry already there |
| Retriever.FetchEach | adam_genius.py:194-199 | without a cache: at most one codelist per reference, each carrying the latest usable version of its own standard |
| Retriever.CacheTransparent | adam_genius.py:182-199 | the cached loop yields the same codelists as looking the version up afresh for every reference |
| Retriever.ListingLookups | adam_genius.py:185-190 | the listing is requested once per standard not already cached, never more |
| Retriever.PackageLookups | adam_genius.py:194-199 | one package request per reference whose standard has a usable version |
| Retriever.WithoutStandard | adam_genius.py:187-190 | dropping a standard's references keeps exactly the references of the other standards, so exactly that standard is removed |
| Retriever.FailedStandardSkipped | adam_genius.py:187-190 | a standard without a usable version skips all its codelists and leaves those of the other standard unchanged |
| Retriever.UniqueRefs | adam_genius.py:159-179 | the references to fetch are the deduplication of the accepted tuples: distinct ids, no id lost, each the last accepted tuple with its id, in first-occurrence order; their standards are known and their hrefs listed in `CodelistLinks` |
| Retriever.ResolveRefs | adam_genius.py:178-202 | with no reference nothing is requested and no codelist found; otherwise the loop runs with a cache that starts empty on each call, which ends holding exactly the standards the references name |
| Retriever.FetchDetails | adam_genius.py:137-201 | the record request comes first; no record gives no details after that one request; otherwise the fields copied from the record, the codelists resolved from its links, and the resolution's requests |
| Retriever.GetVariableDetails | adam_genius.py:123-204 | an empty version raises before any request; an unlocated variable stops after the tree request; otherwise the tree request followed by the detail fetch for the located dataset |
| Retriever.FoundCodelists | adam_genius.py:176-199 | the details' codelists are those of the deduplicated references, fetched with the latest version of each one's standard |
| Retriever.KnownStandardsOnly | adam_genius.py:170 | references accepted by the parser span at most two standards |
| Retriever.ListingLookedUpAtMostTwice | adam_genius.py:169-192 | one variable lookup requests the terminology listing at most twice |
| Retriever.RepeatedIdFetchedOnce | adam_genius.py:176-199 | a codelist linked any number of times collapses to its last reference, costs one listing request and at most one package request, and yields at most one codelist |
| Retriever.NoRefsNoLookups | adam_genius.py:176-201 | with no codelist references the only request after the tree is the variable's own, and no codelist is attached |
| Export.Cells | adam_genius.py:343-349 | the written line has one cell per field name, and each cell is the row's value under that column's name, as `DictWriter` looks it up |
| Export.AttributeRows | adam_genius.py:306-316 | five rows, Label, DataType, Core, CDISCNotes, CodelistLinks in that order, each carrying its value, the dataset and version, and all seven codelist and term columns empty |
| Export.CodelistBlock | adam_genius.py:321-337 | a codelist gives one row per term, whose term columns give back the terms in order, or a single "(No terms found)" row; every row carries the codelist's columns |
| Export.CodelistRows | adam_genius.py:319-337 | as many rows as the codelists need, all `CodelistTerm` rows of the variable's dataset and version |
| Export.CodelistRowsAppend | adam_genius.py:320-337 | codelists laid out one after another give their blocks one after another |
| Export.CsvRows | adam_genius.py:304-337 | the attribute rows come first, then only `CodelistTerm` rows, all of the variable's dataset and version |
| Export.BlockAt | adam_genius.py:319-337 | the k-th codelist's block sits right after the attribute rows and the blocks of the codelists before it |
| Export.RowCount | adam_genius.py:312-337 | five rows, plus one per term, plus one per codelist without terms |
| Export.PlaceholderIffNoTerms | adam_genius.py:327-337 | when no real term is called "(No terms found)", a codelist's block holds the placeholder iff it has no terms |
| Export.CsvFor | adam_genius.py:300-302 | rows are produced exactly for a successful lookup, and begin with the attribute rows |

## Left out

- HTTP and JSON decoding in `_make_request` (adam_genius.py:32-50) are left out. The registry maps stand in for them. A missing entry models only a failure that returns a response: a non-2xx status or a body that is not JSON.
- A request that gets no response at all (a refused connection, a DNS failure) is not modelled. `requests.get` raises before `response` is assigned (adam_genius.py:35), so the handler's `response.json()` (line 42) raises `UnboundLocalError`. Line 44 does not catch that, so the call aborts and `main`'s catch-all (line 386) ends the run. For such failures `Retriever.FailedStandardSkipped` and the `NoDetails` outcomes do not describe the program.
- The API key handling in `__init__` (adam_genius.py:19-30) is left out. It builds the request headers, and raises `ValueError` when neither the parameter nor the environment gives a key (lines 24-25), before any request can be made.
- The `print` diagnostics and `display_variable_details` (adam_genius.py:263-296) are left out. They are console output and decide nothing.
- Opening the output file, the header line and the writing via `csv.DictWriter` (adam_genius.py:343-352) are left out. They are file I/O. Only the rows and the column order (`Export.Header`) are modelled, not CSV quoting.
- `main` and its argument parsing (adam_genius.py:354-393) are left out, and so is the catch-all exception handler. `Export.CsvFor` keeps only the decision whether to write.
- The registry gives one fixed answer per URL for the whole run. Transient failures and changes to the library during a run are not modelled; `Retriever.CacheTransparent` and `Retriever.FoundCodelists` rely on it, since the listing URL can be requested twice in one call.
- `datetime.strptime(v, '%Y-%m-%d')` is the parameter `isDate`. The model makes no claim that Python's string order agrees with calendar order. strptime accepts unpadded months such as `2024-9-01`, which that order places after `2024-10-01`. The registry's own package names are zero-padded.
- `str.upper` and `str.isdigit` are modelled for ASCII letters and digits only. Unicode case mapping and Unicode digits are not modelled.
- JSON values of an unexpected type are not modelled. Each field is either absent or has the type the code expects. A JSON `null` in `conceptId`, for example, would make `.upper()` raise; the model has no such case. The `extensible` flag is a boolean, so truthiness of other values is not modelled.
- Whether a JSON object is empty, which Python's truthiness tests, is modelled with a count of keys the model does not represent (`unmodelledKeys`).
- `adamai.py`, `streamlit_app.py` and `adamrag.py` are left out. They wrap an LLM call, a web UI and a vector index, none of which belongs to the resolution engine.

/**
 * `get_codelist_terms` (adam_genius.py, lines 206-261): fetch one terminology
 * package, pick the codelist whose C-code (else submission value) matches, and
 * turn it into the `cl_info` record with its terms sorted by submission value.
 */
module Terms {
  import opened Wrappers
  import opened Text
  import opened CdiscLibrary

  /** One entry of `cl_info["Terms"]`: `TermCode`, `TERM`, `TermDecodedValue`. */
  datatype TermInfo = TermInfo(termCode: string, term: string, decoded: string)

  /** The `cl_info` record. */
  datatype CodelistInfo = CodelistInfo(
    id: string,
    codelistCode: string,
    name: string,
    extensibleYN: string,
    standard: string,
    version: string,
    terms: seq<TermInfo>)

  function ToTermInfo(t: CtTerm): TermInfo {
    TermInfo(t.conceptId.GetOr(""), t.submissionValue.GetOr(""), t.preferredTerm.GetOr(""))
  }

  /** The terms in package order, before sorting. */
  function ToTermInfos(ts: seq<CtTerm>): seq<TermInfo> {
    seq(|ts|, i requires 0 <= i < |ts| => ToTermInfo(ts[i]))
  }

  // ---- The in-place sort of the terms by their `TERM` value (line 255) ----

  predicate SortedByTerm(xs: seq<TermInfo>) {
    forall i, j :: 0 <= i < j < |xs| ==> LexLe(xs[i].term, xs[j].term)
  }

  /** The entries of `xs` whose `TERM` is `key`, in their order in `xs`. */
  function WithTerm(xs: seq<TermInfo>, key: string): seq<TermInfo> {
    if xs == [] then []
    else (if xs[0].term == key then [xs[0]] else []) + WithTerm(xs[1..], key)
  }

  /** Puts `x` in front of the first entry it does not sort after, so it precedes its equals. */
  function InsertByTerm(x: TermInfo, ys: seq<TermInfo>): seq<TermInfo> {
    if ys == [] then [x]
    else if LexLe(x.term, ys[0].term) then [x] + ys
    else [ys[0]] + InsertByTerm(x, ys[1..])
  }

  lemma {:induction false} InsertPermutes(x: TermInfo, ys: seq<TermInfo>)
    ensures multiset(InsertByTerm(x, ys)) == multiset(ys) + multiset{x}
  {
    if ys != [] && !LexLe(x.term, ys[0].term) {
      InsertPermutes(x, ys[1..]);
      assert ys == [ys[0]] + ys[1..];
    }
  }

  lemma {:induction false} InsertSorted(x: TermInfo, ys: seq<TermInfo>)
    requires SortedByTerm(ys)
    ensures SortedByTerm(InsertByTerm(x, ys))
  {
    if ys == [] {
    } else if LexLe(x.term, ys[0].term) {
      InsertFrontSorted(x, ys);
    } else {
      var rest := InsertByTerm(x, ys[1..]);
      InsertSorted(x, ys[1..]);
      InsertPermutes(x, ys[1..]);
      LexLeTotal(x.term, ys[0].term);
      forall e | e in rest ensures LexLe(ys[0].term, e.term) {
        assert e in multiset(rest);
        if e != x {
          var j :| 0 <= j < |ys[1..]| && ys[1..][j] == e;
          assert ys[j + 1] == e;
        }
      }
      ConsSorted(ys[0], rest);
    }
  }

  /** `x` sorts before the head of a sorted list, so before all of it. */
  lemma InsertFrontSorted(x: TermInfo, ys: seq<TermInfo>)
    requires SortedByTerm(ys) && ys != [] && LexLe(x.term, ys[0].term)
    ensures SortedByTerm([x] + ys)
  {
    forall e | e in ys ensures LexLe(x.term, e.term) {
      var j :| 0 <= j < |ys| && ys[j] == e;
      if j > 0 {
        LexLeTrans(x.term, ys[0].term, e.term);
      }
    }
    ConsSorted(x, ys);
  }

  lemma ConsSorted(x: TermInfo, ys: seq<TermInfo>)
    requires SortedByTerm(ys) && forall e :: e in ys ==> LexLe(x.term, e.term)
    ensures SortedByTerm([x] + ys)
  {
    var r := [x] + ys;
    forall i, j | 0 <= i < j < |r| ensures LexLe(r[i].term, r[j].term) {
      assert r[j] == ys[j - 1];
      if i > 0 {
        assert r[i] == ys[i - 1];
      }
    }
  }

  /** Entries with another key are untouched, and `x` lands in front of the entries sharing its key. */
  lemma {:induction false} InsertStable(x: TermInfo, ys: seq<TermInfo>, key: string)
    ensures WithTerm(InsertByTerm(x, ys), key) == (if x.term == key then [x] else []) + WithTerm(ys, key)
  {
    if ys == [] {
      assert WithTerm([x], key) == (if x.term == key then [x] else []) + WithTerm([], key);
    } else if LexLe(x.term, ys[0].term) {
      assert ([x] + ys)[1..] == ys;
    } else {
      LexLeRefl(x.term);
      InsertStable(x, ys[1..], key);
      InsertStableSkip(x, ys, key);
    }
  }

  /** The step past a head that sorts strictly before `x`, given the claim for the tail. */
  lemma InsertStableSkip(x: TermInfo, ys: seq<TermInfo>, key: string)
    requires ys != [] && x.term != ys[0].term && !LexLe(x.term, ys[0].term)
    requires WithTerm(InsertByTerm(x, ys[1..]), key) == (if x.term == key then [x] else []) + WithTerm(ys[1..], key)
    ensures WithTerm(InsertByTerm(x, ys), key) == (if x.term == key then [x] else []) + WithTerm(ys, key)
  {
    var rest := InsertByTerm(x, ys[1..]);
    var xp: seq<TermInfo> := if x.term == key then [x] else [];
    var yp: seq<TermInfo> := if ys[0].term == key then [ys[0]] else [];
    assert WithTerm([ys[0]] + rest, key) == yp + WithTerm(rest, key) by {
      assert ([ys[0]] + rest)[0] == ys[0] && ([ys[0]] + rest)[1..] == rest;
    }
    assert xp == [] || yp == [];
    if xp == [] {
      assert xp + (yp + WithTerm(ys[1..], key)) == yp + WithTerm(ys[1..], key);
    } else {
      assert yp + (xp + WithTerm(ys[1..], key)) == xp + WithTerm(ys[1..], key);
    }
  }

  /**
   * Python's stable sort by `TERM`: the result is ordered by Python string order,
   * holds the same entries, and keeps entries with equal `TERM` in input order.
   */
  function SortByTerm(xs: seq<TermInfo>): (r: seq<TermInfo>)
    ensures SortedByTerm(r)
    ensures multiset(r) == multiset(xs)
    ensures forall key :: WithTerm(r, key) == WithTerm(xs, key)
  {
    if xs == [] then []
    else
      var rest := SortByTerm(xs[1..]);
      InsertSorted(xs[0], rest);
      InsertPermutes(xs[0], rest);
      assert xs == [xs[0]] + xs[1..];
      forall key ensures WithTerm(InsertByTerm(xs[0], rest), key) == WithTerm(xs, key) {
        InsertStable(xs[0], rest, key);
      }
      InsertByTerm(xs[0], rest)
  }

  /**
   * The three properties pin the order down: any list sorted by `TERM` that agrees
   * with `SortByTerm(xs)` on every key's entries is that list.
   */
  lemma {:induction false} StableSortUnique(a: seq<TermInfo>, b: seq<TermInfo>)
    requires SortedByTerm(a) && SortedByTerm(b)
    requires forall key :: WithTerm(a, key) == WithTerm(b, key)
    ensures a == b
    decreases |a| + |b|
  {
    if a == [] || b == [] {
      if a != [] {
        WithTermHead(a);
      } else if b != [] {
        WithTermHead(b);
      }
    } else {
      var ka, kb := a[0].term, b[0].term;
      WithTermHead(a);
      WithTermHead(b);
      assert LexLe(kb, ka) by {
        WithTermMember(b, ka);
      }
      assert LexLe(ka, kb) by {
        WithTermMember(a, kb);
      }
      LexLeAntisym(ka, kb);
      assert a[0] == b[0];
      forall key ensures WithTerm(a[1..], key) == WithTerm(b[1..], key) {
        WithTermTail(a, key);
        WithTermTail(b, key);
        var h := if a[0].term == key then [a[0]] else [];
        assert WithTerm(a, key) == WithTerm(b, key);
        assert WithTerm(a[1..], key) == (h + WithTerm(a[1..], key))[|h|..];
        assert WithTerm(b[1..], key) == (h + WithTerm(b[1..], key))[|h|..];
      }
      TailSorted(a);
      TailSorted(b);
      StableSortUnique(a[1..], b[1..]);
    }
  }

  /** The head of a list opens the entries sharing its key. */
  lemma WithTermHead(xs: seq<TermInfo>)
    requires xs != []
    ensures WithTerm(xs, xs[0].term) != [] && WithTerm(xs, xs[0].term)[0] == xs[0]
  {
  }

  lemma WithTermTail(xs: seq<TermInfo>, key: string)
    requires xs != []
    ensures WithTerm(xs, key) == (if xs[0].term == key then [xs[0]] else []) + WithTerm(xs[1..], key)
  {
  }

  /** A key with entries in a sorted list does not sort before its head. */
  lemma {:induction false} WithTermMember(xs: seq<TermInfo>, key: string)
    requires SortedByTerm(xs) && xs != [] && WithTerm(xs, key) != []
    ensures LexLe(xs[0].term, key)
  {
    if xs[0].term == key {
      LexLeRefl(key);
    } else {
      assert WithTerm(xs[1..], key) != [];
      var j := WithTermIndex(xs[1..], key);
      assert xs[j + 1].term == key;
    }
  }

  /** An index holding an entry of the key. */
  lemma {:induction false} WithTermIndex(xs: seq<TermInfo>, key: string) returns (j: nat)
    requires WithTerm(xs, key) != []
    ensures j < |xs| && xs[j].term == key
  {
    if xs[0].term == key {
      j := 0;
    } else {
      var k := WithTermIndex(xs[1..], key);
      j := k + 1;
    }
  }

  lemma TailSorted(xs: seq<TermInfo>)
    requires SortedByTerm(xs) && xs != []
    ensures SortedByTerm(xs[1..])
  {
    forall i, j | 0 <= i < j < |xs[1..]| ensures LexLe(xs[1..][i].term, xs[1..][j].term) {
      assert xs[1..][i] == xs[i + 1] && xs[1..][j] == xs[j + 1];
    }
  }

  // ---- Choosing the codelist ----

  /** Which field of a codelist the requested code is compared with. */
  datatype MatchKey = ByConceptId | BySubmissionValue

  /** The codelist's field, an absent one read as empty, equals the code once both are upper-cased (lines 220 and 227). */
  predicate Matches(c: CtCodelist, code: string, key: MatchKey) {
    var field := if key == ByConceptId then c.conceptId else c.submissionValue;
    Upper(field.GetOr("")) == Upper(code)
  }

  /** `i` is the first codelist the loop on `key` stops at. */
  predicate IsFirstMatch(cs: seq<CtCodelist>, code: string, key: MatchKey, i: int) {
    0 <= i < |cs| && Matches(cs[i], code, key) && forall j :: 0 <= j < i ==> !Matches(cs[j], code, key)
  }

  /** One `for ... if ...: break` loop: the index it stops at, if any. */
  function FirstMatch(cs: seq<CtCodelist>, code: string, key: MatchKey): (r: Option<nat>)
    ensures r.Some? <==> exists i :: 0 <= i < |cs| && Matches(cs[i], code, key)
    ensures r.Some? ==> IsFirstMatch(cs, code, key, r.value)
  {
    if cs == [] then None
    else if Matches(cs[0], code, key) then Some(0)
    else
      var rest := FirstMatch(cs[1..], code, key);
      assert forall i :: 1 <= i < |cs| ==> cs[i] == cs[1..][i - 1];
      if rest.Some? then Some(rest.value + 1) else None
  }

  /**
   * Lines 217-234: the C-code loop, then, if it found nothing truthy, the
   * submission-value loop; a result that is missing or the empty object `{}` means
   * "not found".
   */
  function MatchCodelist(cs: seq<CtCodelist>, code: string): (r: Option<CtCodelist>)
    ensures r.Some? ==> !IsEmptyCodelist(r.value)
    ensures r.Some? ==> exists i :: (IsFirstMatch(cs, code, ByConceptId, i) || IsFirstMatch(cs, code, BySubmissionValue, i)) && cs[i] == r.value
    ensures forall i :: IsFirstMatch(cs, code, ByConceptId, i) && !IsEmptyCodelist(cs[i]) ==> r == Some(cs[i])
    ensures (forall i :: IsFirstMatch(cs, code, ByConceptId, i) ==> IsEmptyCodelist(cs[i])) ==>
              forall i :: IsFirstMatch(cs, code, BySubmissionValue, i) && !IsEmptyCodelist(cs[i]) ==> r == Some(cs[i])
    ensures (forall i :: 0 <= i < |cs| ==> !Matches(cs[i], code, ByConceptId) && !Matches(cs[i], code, BySubmissionValue)) ==> r.None?
  {
    var byConcept := FirstMatch(cs, code, ByConceptId);
    var target := if byConcept.Some? && !IsEmptyCodelist(cs[byConcept.value]) then byConcept
                  else FirstMatch(cs, code, BySubmissionValue);
    FirstMatchUnique(cs, code, ByConceptId);
    FirstMatchUnique(cs, code, BySubmissionValue);
    if target.Some? && !IsEmptyCodelist(cs[target.value]) then Some(cs[target.value]) else None
  }

  lemma FirstMatchUnique(cs: seq<CtCodelist>, code: string, key: MatchKey)
    ensures forall i :: IsFirstMatch(cs, code, key, i) ==> FirstMatch(cs, code, key) == Some(i)
  {
    forall i | IsFirstMatch(cs, code, key, i) ensures FirstMatch(cs, code, key) == Some(i) {
      var f := FirstMatch(cs, code, key);
      assert f.Some?;
      assert !(f.value < i);
      assert !(f.value > i);
    }
  }

  /** The empty object can only be matched by the empty code, which no parsed href yields. */
  lemma EmptyCodelistNeedsEmptyCode(c: CtCodelist, code: string, key: MatchKey)
    requires IsEmptyCodelist(c) && Matches(c, code, key)
    ensures code == ""
  {
    assert |Upper(code)| == |code|;
  }

  /** Lines 237-255: the `cl_info` record of the chosen codelist. */
  function ToCodelistInfo(c: CtCodelist, standard: string, version: string): (r: CodelistInfo)
    ensures r.extensibleYN == "Yes" <==> c.extensible == Some(true)
    ensures r.extensibleYN == "Yes" || r.extensibleYN == "No"
    ensures r.standard == standard && r.version == version
    ensures r.id == c.submissionValue.GetOr("") && r.codelistCode == c.conceptId.GetOr("")
    ensures r.name == c.name.GetOr("")
    ensures SortedByTerm(r.terms)
    ensures multiset(r.terms) == multiset(ToTermInfos(c.terms.GetOr([])))
    ensures forall key :: WithTerm(r.terms, key) == WithTerm(ToTermInfos(c.terms.GetOr([])), key)
  {
    CodelistInfo(
      c.submissionValue.GetOr(""),
      c.conceptId.GetOr(""),
      c.name.GetOr(""),
      if c.extensible == Some(true) then "Yes" else "No",
      standard,
      version,
      SortByTerm(ToTermInfos(c.terms.GetOr([]))))
  }

  /**
   * `get_codelist_terms(codelist_code, standard, ct_version)`: one package request;
   * `None` when the package or its `codelists` key is missing or no codelist matches.
   */
  function GetCodelistTerms(reg: Registry, code: string, standard: string, version: string): (r: Run<Option<CodelistInfo>>)
    ensures r.trace == [PackageRequest(standard, version)]
    ensures var pkg := Get(reg.packages, PackageRequest(standard, version));
            pkg.None? || pkg.value.codelists.None? ==> r.value.None?
    ensures r.value.Some? ==>
              var cs := Get(reg.packages, PackageRequest(standard, version)).value.codelists.value;
              && r.value.value.standard == standard && r.value.value.version == version
              && (exists c :: c in cs && !IsEmptyCodelist(c)
                   && (Matches(c, code, ByConceptId) || Matches(c, code, BySubmissionValue))
                   && r.value.value == ToCodelistInfo(c, standard, version))
              && MatchCodelist(cs, code).Some?
              && r.value.value == ToCodelistInfo(MatchCodelist(cs, code).value, standard, version)
    ensures var pkg := Get(reg.packages, PackageRequest(standard, version));
            r.value.Some? <==> pkg.Some? && pkg.value.codelists.Some? && MatchCodelist(pkg.value.codelists.value, code).Some?
  {
    var req := PackageRequest(standard, version);
    var pkg := Get(reg.packages, req);
    if pkg.None? || pkg.value.codelists.None? then Run(None, [req])
    else
      match MatchCodelist(pkg.value.codelists.value, code)
      case None => Run(None, [req])
      case Some(c) => Run(Some(ToCodelistInfo(c, standard, version)), [req])
  }
}

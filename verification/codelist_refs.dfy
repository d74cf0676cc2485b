/**
 * Codelist references of a variable record (`get_variable_details`, lines 160-179):
 * which `_links.codelist[].href` values are accepted as `(id, standard, href)`
 * tuples, and the dictionary-based de-duplication by id.
 */
module CodelistRefs {
  import opened Wrappers
  import opened Text
  import opened CdiscLibrary

  /** The tuple `(codelist_id, standard, href)`. */
  datatype CodelistRef = CodelistRef(id: string, standard: string, href: string)

  /** The terminology standards the parser accepts. */
  predicate IsKnownStandard(s: string) {
    s == "sdtmct" || s == "adamct"
  }

  /** A concept code: the letter `C` followed by one or more digits (line 171). */
  predicate IsConceptCode(id: string) {
    |id| >= 1 && id[0] == 'C' && IsDigits(id[1..])
  }

  /** `pre` is empty or ends in a path separator. */
  predicate IsPathPrefix(pre: string) {
    pre == [] || pre[|pre| - 1] == '/'
  }

  /** `href` has the shape `pre + standard + "/" + middle + "/" + id` with single-segment `middle` and `id`. */
  ghost predicate HasCodelistShape(href: string, standard: string, id: string) {
    exists pre, middle :: IsPathPrefix(pre) && '/' !in middle && '/' !in id
                          && href == pre + standard + "/" + middle + "/" + id
  }

  /**
   * Lines 167-171: split on `/`, take the last segment as the id and the
   * third-from-last as the standard; an href with fewer than three segments is the
   * `IndexError` branch and, like a failed check, yields nothing.
   */
  function ParseHref(href: string): (r: Option<CodelistRef>)
    ensures r.Some? ==> r.value.href == href && IsConceptCode(r.value.id) && IsKnownStandard(r.value.standard)
    ensures r.Some? ==> HasCodelistShape(href, r.value.standard, r.value.id)
  {
    var parts := Split(href, "/");
    if |parts| < 3 then None
    else
      var id := parts[|parts| - 1];
      var standard := parts[|parts| - 3];
      if IsConceptCode(id) && IsKnownStandard(standard) then
        ParsedShape(href);
        Some(CodelistRef(id, standard, href))
      else None
  }

  lemma {:induction false} JoinSnoc(xs: seq<string>, y: string, sep: string)
    requires |xs| >= 1
    ensures Join(xs + [y], sep) == Join(xs, sep) + sep + y
    decreases |xs|
  {
    if |xs| == 1 {
      assert xs + [y] == [xs[0], y];
    } else {
      assert (xs + [y])[1..] == xs[1..] + [y];
      JoinSnoc(xs[1..], y, sep);
    }
  }

  /** `"/".join` of three segments. */
  lemma JoinThree(standard: string, middle: string, id: string)
    ensures Join([standard, middle, id], "/") == standard + "/" + middle + "/" + id
  {
    assert [standard, middle, id][1..] == [middle, id];
    assert [middle, id][1..] == [id];
    assert Join([middle, id], "/") == middle + "/" + id;
    assert standard + "/" + (middle + "/" + id) == standard + "/" + middle + "/" + id;
  }

  lemma AppendThree(a: seq<string>, standard: string, middle: string, id: string)
    ensures a + [standard, middle, id] == a + [standard] + [middle] + [id]
  {
  }

  /** `"/".join` of a non-empty prefix followed by three segments. */
  lemma JoinAfterPrefix(a: seq<string>, standard: string, middle: string, id: string)
    requires |a| >= 1
    ensures Join(a + [standard, middle, id], "/") == Join(a, "/") + "/" + standard + "/" + middle + "/" + id
  {
    AppendThree(a, standard, middle, id);
    JoinSnoc(a, standard, "/");
    JoinSnoc(a + [standard], middle, "/");
    JoinSnoc(a + [standard] + [middle], id, "/");
  }

  /** Any href with at least three segments has the shape its last and third-from-last segments describe. */
  lemma ParsedShape(href: string)
    requires |Split(href, "/")| >= 3
    ensures var parts := Split(href, "/");
            HasCodelistShape(href, parts[|parts| - 3], parts[|parts| - 1])
  {
    var parts := Split(href, "/");
    var n := |parts|;
    JoinSplit(href, "/");
    SplitCharPiecesFree(href, '/');
    var a, standard, middle, id := parts[..n - 3], parts[n - 3], parts[n - 2], parts[n - 1];
    assert '/' !in middle && '/' !in id;
    assert parts == a + [standard, middle, id];
    if a == [] {
      JoinThree(standard, middle, id);
      ShapeWitness(href, "", standard, middle, id);
    } else {
      JoinAfterPrefix(a, standard, middle, id);
      ShapeWitness(href, Join(a, "/") + "/", standard, middle, id);
    }
  }

  /** Exhibits the two witnesses of `HasCodelistShape`. */
  lemma ShapeWitness(href: string, pre: string, standard: string, middle: string, id: string)
    requires IsPathPrefix(pre) && '/' !in middle && '/' !in id
    requires href == pre + standard + "/" + middle + "/" + id
    ensures HasCodelistShape(href, standard, id)
  {
  }

  /** Splitting on `/` at a separator-free join of three segments. */
  lemma SplitThree(standard: string, middle: string, id: string)
    requires '/' !in standard && '/' !in middle && '/' !in id
    ensures Split(standard + "/" + middle + "/" + id, "/") == [standard, middle, id]
  {
    var t := middle + "/" + id;
    SplitCharAbsent(id, '/');
    SplitCons(middle, '/', id);
    SplitCons(standard, '/', t);
    assert standard + "/" + middle + "/" + id == standard + "/" + t;
  }

  /** A separator-free first piece is split off whole. */
  lemma SplitCons(a: string, c: char, b: string)
    requires c !in a
    ensures Split(a + [c] + b, [c]) == [a] + Split(b, [c])
  {
    SplitCharAbsent(a, c);
    SplitCharAppend(a, c, b);
  }

  /** A path prefix contributes its own pieces in front of the rest. */
  lemma PrefixPieces(pre: string, tail: string)
    requires pre != [] && pre[|pre| - 1] == '/'
    ensures Split(pre + tail, "/") == Split(pre[..|pre| - 1], "/") + Split(tail, "/")
  {
    var p := pre[..|pre| - 1];
    assert pre + tail == p + ['/'] + tail;
    SplitCharAppend(p, '/', tail);
  }

  lemma HrefRegroup(pre: string, standard: string, middle: string, id: string)
    ensures pre + standard + "/" + middle + "/" + id == pre + (standard + "/" + middle + "/" + id)
  {
  }

  predicate EndsWithThree(parts: seq<string>, standard: string, id: string) {
    |parts| >= 3 && parts[|parts| - 1] == id && parts[|parts| - 3] == standard
  }

  lemma EndsWithThreeAppend(a: seq<string>, standard: string, middle: string, id: string)
    ensures EndsWithThree(a + [standard, middle, id], standard, id)
  {
  }

  /** The segments of a built href end with its standard, middle and id segments. */
  lemma BuiltHrefParts(pre: string, standard: string, middle: string, id: string)
    requires IsPathPrefix(pre) && '/' !in standard && '/' !in middle && '/' !in id
    ensures EndsWithThree(Split(pre + standard + "/" + middle + "/" + id, "/"), standard, id)
  {
    var tail := standard + "/" + middle + "/" + id;
    HrefRegroup(pre, standard, middle, id);
    SplitThree(standard, middle, id);
    if pre == [] {
      assert pre + tail == tail;
    } else {
      PrefixPieces(pre, tail);
      EndsWithThreeAppend(Split(pre[..|pre| - 1], "/"), standard, middle, id);
    }
  }

  /** Conversely, every href of that shape with a known standard and a concept-code id is accepted. */
  lemma ParseBuiltHref(pre: string, standard: string, middle: string, id: string)
    requires IsPathPrefix(pre) && '/' !in middle && IsKnownStandard(standard) && IsConceptCode(id)
    ensures var href := pre + standard + "/" + middle + "/" + id;
            ParseHref(href) == Some(CodelistRef(id, standard, href))
  {
    assert '/' !in id by {
      assert forall i :: 1 <= i < |id| ==> id[i] == id[1..][i - 1];
    }
    BuiltHrefParts(pre, standard, middle, id);
  }

  /** The hrefs that are present and non-empty (line 163), in link order; these fill `CodelistLinks`. */
  function PresentHrefs(links: seq<Link>): (r: seq<string>)
    ensures |r| <= |links|
    ensures forall h :: h in r <==> h != "" && exists j :: 0 <= j < |links| && links[j].href == Some(h)
  {
    if links == [] then []
    else
      var rest := PresentHrefs(links[1..]);
      assert forall j :: 1 <= j < |links| ==> links[j] == links[1..][j - 1];
      HrefOf(links[0]) + rest
  }

  /** `codelist_info_list`: the accepted tuples, in href order. */
  function AcceptedRefs(hrefs: seq<string>): (r: seq<CodelistRef>)
    ensures |r| <= |hrefs|
    ensures forall x :: x in r <==> x.href in hrefs && ParseHref(x.href) == Some(x)
  {
    if hrefs == [] then []
    else
      RefOf(hrefs[0]) + AcceptedRefs(hrefs[1..])
  }

  /** The href one link contributes: its `href` when present and non-empty. */
  function HrefOf(l: Link): seq<string> {
    if l.href.Some? && l.href.value != "" then [l.href.value] else []
  }

  /** Filtering the links keeps their order: the hrefs of a concatenation are the concatenated hrefs. */
  lemma {:induction false} PresentHrefsAppend(a: seq<Link>, b: seq<Link>)
    ensures PresentHrefs(a + b) == PresentHrefs(a) + PresentHrefs(b)
  {
    if a == [] {
      assert a + b == b;
    } else {
      assert (a + b)[0] == a[0] && (a + b)[1..] == a[1..] + b;
      PresentHrefsAppend(a[1..], b);
      assert HrefOf(a[0]) + (PresentHrefs(a[1..]) + PresentHrefs(b))
          == (HrefOf(a[0]) + PresentHrefs(a[1..])) + PresentHrefs(b);
    }
  }

  /** The loop of lines 161-164: each link appends its href, when it has one, at the end of `CodelistLinks`. */
  lemma PresentHrefsSnoc(links: seq<Link>, l: Link)
    ensures PresentHrefs(links + [l]) == PresentHrefs(links) + HrefOf(l)
  {
    PresentHrefsAppend(links, [l]);
    assert [l][1..] == [];
  }

  /** The tuple one href contributes: its parse, when it is accepted. */
  function RefOf(href: string): seq<CodelistRef> {
    match ParseHref(href)
    case Some(x) => [x]
    case None => []
  }

  /** Collecting keeps href order and duplicates: the tuples of a concatenation are the concatenated tuples. */
  lemma {:induction false} AcceptedRefsAppend(a: seq<string>, b: seq<string>)
    ensures AcceptedRefs(a + b) == AcceptedRefs(a) + AcceptedRefs(b)
  {
    if a == [] {
      assert a + b == b;
    } else {
      assert (a + b)[0] == a[0] && (a + b)[1..] == a[1..] + b;
      AcceptedRefsAppend(a[1..], b);
      assert RefOf(a[0]) + (AcceptedRefs(a[1..]) + AcceptedRefs(b))
          == (RefOf(a[0]) + AcceptedRefs(a[1..])) + AcceptedRefs(b);
    }
  }

  /** The loop of lines 163-172: each accepted href appends its tuple at the end of `codelist_info_list`. */
  lemma AcceptedRefsSnoc(hrefs: seq<string>, h: string)
    ensures AcceptedRefs(hrefs + [h]) == AcceptedRefs(hrefs) + RefOf(h)
  {
    AcceptedRefsAppend(hrefs, [h]);
    assert [h][1..] == [];
  }

  // ---- De-duplication (line 179): a dictionary keyed by codelist id, read back in insertion order ----

  predicate DistinctIds(r: seq<CodelistRef>) {
    forall i, k :: 0 <= i < k < |r| ==> r[i].id != r[k].id
  }

  /** The index of the last tuple of `xs` with this id, or -1. */
  function LastIndexOfId(xs: seq<CodelistRef>, id: string): (r: int)
    ensures -1 <= r < |xs|
    ensures r >= 0 ==> xs[r].id == id
    ensures forall k :: r < k < |xs| ==> xs[k].id != id
  {
    if xs == [] then -1
    else if xs[|xs| - 1].id == id then |xs| - 1
    else LastIndexOfId(xs[..|xs| - 1], id)
  }

  /** `e` is the last tuple of `xs` carrying its id. */
  predicate IsLastWithId(xs: seq<CodelistRef>, e: CodelistRef) {
    var j := LastIndexOfId(xs, e.id);
    j >= 0 && xs[j] == e
  }

  /** The ids a list mentions. */
  function IdSet(xs: seq<CodelistRef>): set<string> {
    set i | 0 <= i < |xs| :: xs[i].id
  }

  /** The index of the first tuple of `xs` with this id, or `|xs|`. */
  function FirstIndexOfId(xs: seq<CodelistRef>, id: string): (r: nat)
    ensures r <= |xs|
    ensures r < |xs| ==> xs[r].id == id
    ensures forall j :: 0 <= j < r ==> xs[j].id != id
  {
    if xs == [] then 0
    else if xs[0].id == id then 0
    else 1 + FirstIndexOfId(xs[1..], id)
  }

  /** `r` lists its ids in the order they first appear in `xs`. */
  predicate InFirstOccurrenceOrder(r: seq<CodelistRef>, xs: seq<CodelistRef>) {
    forall i, k :: 0 <= i < k < |r| ==> FirstIndexOfId(xs, r[i].id) < FirstIndexOfId(xs, r[k].id)
  }

  predicate DedupOf(r: seq<CodelistRef>, xs: seq<CodelistRef>) {
    && DistinctIds(r)
    && AllLast(r, xs)
    && IdSet(r) == IdSet(xs)
    && InFirstOccurrenceOrder(r, xs)
  }

  /** Where the dictionary holds a key. */
  function IndexOfId(acc: seq<CodelistRef>, id: string): (r: Option<nat>)
    ensures r.Some? ==> r.value < |acc| && acc[r.value].id == id
    ensures r.None? ==> forall i :: 0 <= i < |acc| ==> acc[i].id != id
  {
    if acc == [] then None
    else if acc[0].id == id then Some(0)
    else match IndexOfId(acc[1..], id)
         case Some(i) => Some(i + 1)
         case None => None
  }

  /** `d[x.id] = x`: overwrite in place when the key exists, else append. */
  function Put(acc: seq<CodelistRef>, x: CodelistRef): seq<CodelistRef> {
    match IndexOfId(acc, x.id)
    case Some(i) => acc[i := x]
    case None => acc + [x]
  }

  lemma FirstIndexSnoc(xs: seq<CodelistRef>, x: CodelistRef, id: string)
    ensures FirstIndexOfId(xs, id) < |xs| ==> FirstIndexOfId(xs + [x], id) == FirstIndexOfId(xs, id)
    ensures FirstIndexOfId(xs, id) == |xs| && x.id == id ==> FirstIndexOfId(xs + [x], id) == |xs|
  {
    var f, g := FirstIndexOfId(xs, id), FirstIndexOfId(xs + [x], id);
    assert forall j :: 0 <= j < |xs| ==> (xs + [x])[j] == xs[j];
    if f < |xs| {
      assert (xs + [x])[f] == xs[f];
    } else if x.id == id {
      assert (xs + [x])[|xs|] == x;
    }
  }

  lemma LastIndexSnoc(xs: seq<CodelistRef>, x: CodelistRef, id: string)
    ensures LastIndexOfId(xs + [x], id) == if x.id == id then |xs| else LastIndexOfId(xs, id)
  {
    assert (xs + [x])[..|xs|] == xs;
  }

  lemma IdSetSnoc(xs: seq<CodelistRef>, x: CodelistRef)
    ensures IdSet(xs + [x]) == IdSet(xs) + {x.id}
  {
    var ys := xs + [x];
    forall id | id in IdSet(ys) ensures id in IdSet(xs) + {x.id} {
      var i :| 0 <= i < |ys| && ys[i].id == id;
      if i < |xs| {
        assert xs[i].id == id;
      }
    }
    forall id | id in IdSet(xs) + {x.id} ensures id in IdSet(ys) {
      if id in IdSet(xs) {
        var i :| 0 <= i < |xs| && xs[i].id == id;
        assert ys[i].id == id;
      } else {
        assert ys[|xs|].id == id;
      }
    }
  }

  lemma IdSetUpdate(acc: seq<CodelistRef>, p: nat, x: CodelistRef)
    requires p < |acc| && acc[p].id == x.id
    ensures IdSet(acc[p := x]) == IdSet(acc)
  {
    var r := acc[p := x];
    assert forall i :: 0 <= i < |r| ==> r[i].id == acc[i].id;
    forall id | id in IdSet(r) ensures id in IdSet(acc) {
      var i :| 0 <= i < |r| && r[i].id == id;
      assert acc[i].id == id;
    }
    forall id | id in IdSet(acc) ensures id in IdSet(r) {
      var i :| 0 <= i < |acc| && acc[i].id == id;
      assert r[i].id == id;
    }
  }

  lemma FirstIndexAbsent(xs: seq<CodelistRef>, id: string)
    requires id !in IdSet(xs)
    ensures FirstIndexOfId(xs, id) == |xs|
  {
  }

  /** Every entry of `acc` is the last tuple of `xs` with its id. */
  predicate AllLast(acc: seq<CodelistRef>, xs: seq<CodelistRef>) {
    forall i :: 0 <= i < |acc| ==> IsLastWithId(xs, acc[i])
  }

  /** Ids already present keep their first index when one more tuple arrives. */
  lemma FirstIndicesStable(acc: seq<CodelistRef>, xs: seq<CodelistRef>, x: CodelistRef)
    requires AllLast(acc, xs)
    ensures forall i :: 0 <= i < |acc| ==> FirstIndexOfId(xs + [x], acc[i].id) == FirstIndexOfId(xs, acc[i].id) < |xs|
  {
    forall i | 0 <= i < |acc| ensures FirstIndexOfId(xs + [x], acc[i].id) == FirstIndexOfId(xs, acc[i].id) < |xs| {
      var j := LastIndexOfId(xs, acc[i].id);
      assert xs[j].id == acc[i].id;
      assert FirstIndexOfId(xs, acc[i].id) <= j;
      FirstIndexSnoc(xs, x, acc[i].id);
    }
  }

  // ---- Overwriting an existing key: `acc[p := x]` ----

  lemma OverwriteDistinct(acc: seq<CodelistRef>, x: CodelistRef, p: nat)
    requires DistinctIds(acc) && p < |acc| && acc[p].id == x.id
    ensures DistinctIds(acc[p := x])
  {
    assert forall i :: 0 <= i < |acc| ==> acc[p := x][i].id == acc[i].id;
  }

  lemma OverwriteAllLast(acc: seq<CodelistRef>, xs: seq<CodelistRef>, x: CodelistRef, p: nat)
    requires DistinctIds(acc) && AllLast(acc, xs) && p < |acc| && acc[p].id == x.id
    ensures AllLast(acc[p := x], xs + [x])
  {
    var r := acc[p := x];
    forall i | 0 <= i < |r| ensures IsLastWithId(xs + [x], r[i]) {
      LastIndexSnoc(xs, x, r[i].id);
      if i != p {
        assert acc[i].id != acc[p].id;
        assert (xs + [x])[LastIndexOfId(xs, r[i].id)] == xs[LastIndexOfId(xs, r[i].id)];
      }
    }
  }

  lemma OverwriteIdSet(acc: seq<CodelistRef>, xs: seq<CodelistRef>, x: CodelistRef, p: nat)
    requires IdSet(acc) == IdSet(xs) && p < |acc| && acc[p].id == x.id
    ensures IdSet(acc[p := x]) == IdSet(xs + [x])
  {
    IdSetUpdate(acc, p, x);
    IdSetSnoc(xs, x);
    assert x.id in IdSet(acc) by { assert acc[p].id == x.id; }
  }

  lemma OverwriteOrder(acc: seq<CodelistRef>, xs: seq<CodelistRef>, x: CodelistRef, p: nat)
    requires AllLast(acc, xs) && InFirstOccurrenceOrder(acc, xs) && p < |acc| && acc[p].id == x.id
    ensures InFirstOccurrenceOrder(acc[p := x], xs + [x])
  {
    FirstIndicesStable(acc, xs, x);
    assert forall i :: 0 <= i < |acc| ==> acc[p := x][i].id == acc[i].id;
  }

  /** Assigning an existing key replaces that entry in place. */
  lemma PutOverwriteKeepsDedup(acc: seq<CodelistRef>, xs: seq<CodelistRef>, x: CodelistRef, p: nat)
    requires DedupOf(acc, xs)
    requires p < |acc| && acc[p].id == x.id
    ensures DedupOf(acc[p := x], xs + [x])
  {
    OverwriteDistinct(acc, x, p);
    OverwriteAllLast(acc, xs, x, p);
    OverwriteIdSet(acc, xs, x, p);
    OverwriteOrder(acc, xs, x, p);
  }

  // ---- Assigning a new key: `acc + [x]` ----

  lemma AppendDistinct(acc: seq<CodelistRef>, x: CodelistRef)
    requires DistinctIds(acc) && forall i :: 0 <= i < |acc| ==> acc[i].id != x.id
    ensures DistinctIds(acc + [x])
  {
  }

  lemma AppendAllLast(acc: seq<CodelistRef>, xs: seq<CodelistRef>, x: CodelistRef)
    requires AllLast(acc, xs) && forall i :: 0 <= i < |acc| ==> acc[i].id != x.id
    ensures AllLast(acc + [x], xs + [x])
  {
    var r := acc + [x];
    forall i | 0 <= i < |r| ensures IsLastWithId(xs + [x], r[i]) {
      LastIndexSnoc(xs, x, r[i].id);
      if i < |acc| {
        assert r[i] == acc[i];
        assert (xs + [x])[LastIndexOfId(xs, r[i].id)] == xs[LastIndexOfId(xs, r[i].id)];
      }
    }
  }

  lemma AppendIdSet(acc: seq<CodelistRef>, xs: seq<CodelistRef>, x: CodelistRef)
    requires IdSet(acc) == IdSet(xs)
    ensures IdSet(acc + [x]) == IdSet(xs + [x])
  {
    IdSetSnoc(acc, x);
    IdSetSnoc(xs, x);
  }

  lemma AppendOrder(acc: seq<CodelistRef>, xs: seq<CodelistRef>, x: CodelistRef)
    requires AllLast(acc, xs) && InFirstOccurrenceOrder(acc, xs) && IdSet(acc) == IdSet(xs)
    requires forall i :: 0 <= i < |acc| ==> acc[i].id != x.id
    ensures InFirstOccurrenceOrder(acc + [x], xs + [x])
  {
    var r := acc + [x];
    FirstIndicesStable(acc, xs, x);
    assert x.id !in IdSet(xs);
    FirstIndexAbsent(xs, x.id);
    FirstIndexSnoc(xs, x, x.id);
    assert forall i :: 0 <= i < |acc| ==> r[i] == acc[i];
  }

  /** Assigning a new key appends an entry at the end. */
  lemma PutAppendKeepsDedup(acc: seq<CodelistRef>, xs: seq<CodelistRef>, x: CodelistRef)
    requires DedupOf(acc, xs)
    requires forall i :: 0 <= i < |acc| ==> acc[i].id != x.id
    ensures DedupOf(acc + [x], xs + [x])
  {
    AppendDistinct(acc, x);
    AppendAllLast(acc, xs, x);
    AppendIdSet(acc, xs, x);
    AppendOrder(acc, xs, x);
  }

  /** One dictionary assignment keeps the de-duplication properties for the longer input. */
  lemma PutKeepsDedup(acc: seq<CodelistRef>, xs: seq<CodelistRef>, x: CodelistRef)
    requires DedupOf(acc, xs)
    ensures DedupOf(Put(acc, x), xs + [x])
  {
    match IndexOfId(acc, x.id)
    case Some(p) => PutOverwriteKeepsDedup(acc, xs, x, p);
    case None => PutAppendKeepsDedup(acc, xs, x);
  }

  /**
   * The dictionary comprehension: ids distinct, listed in order of first
   * occurrence, each entry the LAST tuple carrying its id, and no id lost.
   */
  function Dedup(xs: seq<CodelistRef>): (r: seq<CodelistRef>)
    ensures DistinctIds(r)
    ensures forall i :: 0 <= i < |r| ==> IsLastWithId(xs, r[i])
    ensures IdSet(r) == IdSet(xs)
    ensures InFirstOccurrenceOrder(r, xs)
  {
    if xs == [] then []
    else
      var init := xs[..|xs| - 1];
      assert xs == init + [xs[|xs| - 1]];
      PutKeepsDedup(Dedup(init), init, xs[|xs| - 1]);
      Put(Dedup(init), xs[|xs| - 1])
  }

  /** The same id repeated any number of times collapses to one entry: the last tuple. */
  lemma DedupRepeatedId(xs: seq<CodelistRef>)
    requires |xs| > 0 && forall j :: 0 <= j < |xs| ==> xs[j].id == xs[0].id
    ensures Dedup(xs) == [xs[|xs| - 1]]
  {
    var r := Dedup(xs);
    assert xs[0].id in IdSet(xs);
    assert |r| > 0;
    assert forall i :: 0 <= i < |r| ==> r[i].id in IdSet(xs);
    assert |r| == 1;
    assert LastIndexOfId(xs, r[0].id) == |xs| - 1;
  }
}

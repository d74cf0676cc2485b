/**
 * The rows `write_to_csv` (adam_genius.py, lines 298-349) hands to `csv.DictWriter`:
 * five attribute rows, then one row per term of every fetched codelist, or a
 * single placeholder row for a codelist without terms. Opening and writing the
 * file is left out; the model stops at the rows and their cells.
 */
module Export {
  import opened Wrappers
  import opened Text
  import opened Terms
  import opened Retriever

  /** One CSV row, each field being the text written in its column. */
  datatype Row = Row(
    dataset: string,
    igVersion: string,
    parameter: string,
    value: string,
    codelistId: string,
    codelistCode: string,
    codelistName: string,
    extensibleYN: string,
    termCode: string,
    term: string,
    termDecoded: string)

  /** `fieldnames`, the header line and the column order. */
  const Header: seq<string> := ["Dataset", "ADaMIGVersion", "Parameter", "Value", "CodelistID", "CodelistCode",
                                "CodelistName", "ExtensibleYN", "TermCode", "TERM", "TermDecodedValue"]

  /**
   * The row as the dictionary `csv.DictWriter` receives: the value under a column
   * name. Every key the rows use is one of the field names, so the writer never
   * meets an extra key; a name the row lacks reads as the writer's empty default.
   */
  function Field(r: Row, name: string): string {
    match name
    case "Dataset" => r.dataset
    case "ADaMIGVersion" => r.igVersion
    case "Parameter" => r.parameter
    case "Value" => r.value
    case "CodelistID" => r.codelistId
    case "CodelistCode" => r.codelistCode
    case "CodelistName" => r.codelistName
    case "ExtensibleYN" => r.extensibleYN
    case "TermCode" => r.termCode
    case "TERM" => r.term
    case "TermDecodedValue" => r.termDecoded
    case _ => ""
  }

  /** The line `DictWriter` writes for a row (lines 343-349): the value of each field name, in header order. */
  function Cells(r: Row): (cells: seq<string>)
    ensures |cells| == |Header|
    ensures forall i :: 0 <= i < |cells| ==> cells[i] == Field(r, Header[i])
  {
    [r.dataset, r.igVersion, r.parameter, r.value, r.codelistId, r.codelistCode,
     r.codelistName, r.extensibleYN, r.termCode, r.term, r.termDecoded]
  }

  /** `csv.DictWriter` writes `None`, and a key the row lacks, as an empty cell. */
  function Cell(v: Option<string>): string {
    v.GetOr("")
  }

  /** The `Parameter` column of the attribute rows, in the order they are appended. */
  const AttributeNames: seq<string> := ["Label", "DataType", "Core", "CDISCNotes", "CodelistLinks"]

  /** The value each attribute row carries, in the same order. */
  function AttributeValues(d: Details): seq<string> {
    [Cell(d.labelText), Cell(d.dataType), Cell(d.core), Cell(d.notes), Join(d.codelistLinks, ", ")]
  }

  /** The base row of lines 306-311 with its `Parameter` and `Value` replaced; codelist and term columns stay empty. */
  function AttributeRow(d: Details, name: string, value: string): Row {
    Row(d.dataset, d.igVersion, name, value, "", "", "", "", "", "", "")
  }

  /** Lines 312-316. */
  function AttributeRows(d: Details): (rows: seq<Row>)
    ensures |rows| == |AttributeNames|
    ensures forall i :: 0 <= i < |rows| ==>
              && rows[i].parameter == AttributeNames[i]
              && rows[i].value == AttributeValues(d)[i]
              && rows[i].dataset == d.dataset && rows[i].igVersion == d.igVersion
              && rows[i].codelistId == "" && rows[i].codelistCode == "" && rows[i].codelistName == ""
              && rows[i].extensibleYN == "" && rows[i].termCode == "" && rows[i].term == ""
              && rows[i].termDecoded == ""
  {
    var values := AttributeValues(d);
    seq(|AttributeNames|, i requires 0 <= i < |AttributeNames| => AttributeRow(d, AttributeNames[i], values[i]))
  }

  /** What the `TERM` column holds on the row of a codelist without terms. */
  const NoTermsMarker: string := "(No terms found)"

  /** `cl_base_info` merged with one term. */
  function TermRow(d: Details, cl: CodelistInfo, t: TermInfo): Row {
    Row(d.dataset, d.igVersion, "CodelistTerm", "", cl.id, cl.codelistCode, cl.name, cl.extensibleYN,
        t.termCode, t.term, t.decoded)
  }

  /** The codelist's base row with the marker in `TERM` (line 337); term code and decoded value are absent, so empty. */
  function PlaceholderRow(d: Details, cl: CodelistInfo): Row {
    Row(d.dataset, d.igVersion, "CodelistTerm", "", cl.id, cl.codelistCode, cl.name, cl.extensibleYN,
        "", NoTermsMarker, "")
  }

  /** The term columns of a list of rows; on a codelist's block they give back its terms in order. */
  function TermsOf(rows: seq<Row>): seq<TermInfo> {
    seq(|rows|, i requires 0 <= i < |rows| => TermInfo(rows[i].termCode, rows[i].term, rows[i].termDecoded))
  }

  /** The row carries the variable's dataset and ADaMIG version. */
  predicate InContext(r: Row, d: Details) {
    r.dataset == d.dataset && r.igVersion == d.igVersion
  }

  /** The row is a `CodelistTerm` row carrying the codelist's columns. */
  predicate CarriesCodelist(r: Row, cl: CodelistInfo) {
    && r.parameter == "CodelistTerm" && r.value == ""
    && r.codelistId == cl.id && r.codelistCode == cl.codelistCode
    && r.codelistName == cl.name && r.extensibleYN == cl.extensibleYN
  }

  /** The rows one codelist contributes (lines 321-337). */
  function CodelistBlock(d: Details, cl: CodelistInfo): (rows: seq<Row>)
    ensures |rows| == if cl.terms == [] then 1 else |cl.terms|
    ensures forall i :: 0 <= i < |rows| ==> CarriesCodelist(rows[i], cl) && InContext(rows[i], d)
    ensures cl.terms == [] ==> rows[0].term == NoTermsMarker && rows[0].termCode == "" && rows[0].termDecoded == ""
    ensures cl.terms != [] ==> TermsOf(rows) == cl.terms
  {
    if cl.terms == [] then [PlaceholderRow(d, cl)]
    else seq(|cl.terms|, i requires 0 <= i < |cl.terms| => TermRow(d, cl, cl.terms[i]))
  }

  /** How many rows a codelist needs: one per term, at least one. */
  function RowsFor(cl: CodelistInfo): nat {
    if cl.terms == [] then 1 else |cl.terms|
  }

  function RowsNeeded(cls: seq<CodelistInfo>): nat {
    if cls == [] then 0 else RowsFor(cls[0]) + RowsNeeded(cls[1..])
  }

  /** The codelists' blocks, in codelist order. */
  function CodelistRows(d: Details, cls: seq<CodelistInfo>): (rows: seq<Row>)
    ensures |rows| == RowsNeeded(cls)
    ensures forall i :: 0 <= i < |rows| ==> rows[i].parameter == "CodelistTerm" && InContext(rows[i], d)
  {
    if cls == [] then []
    else CodelistBlock(d, cls[0]) + CodelistRows(d, cls[1..])
  }

  /** The rows of a concatenation are the concatenated rows. */
  lemma {:induction false} CodelistRowsAppend(d: Details, a: seq<CodelistInfo>, b: seq<CodelistInfo>)
    ensures CodelistRows(d, a + b) == CodelistRows(d, a) + CodelistRows(d, b)
  {
    if a == [] {
      assert a + b == b;
    } else {
      CodelistRowsAppend(d, a[1..], b);
      AppendStep(d, a, b);
    }
  }

  /** The inductive step of `CodelistRowsAppend`, given the claim for `a[1..]`. */
  lemma AppendStep(d: Details, a: seq<CodelistInfo>, b: seq<CodelistInfo>)
    requires a != []
    requires CodelistRows(d, a[1..] + b) == CodelistRows(d, a[1..]) + CodelistRows(d, b)
    ensures CodelistRows(d, a + b) == CodelistRows(d, a) + CodelistRows(d, b)
  {
    ConsOfAppend(a, b);
    Regather(CodelistRows(d, a + b), CodelistRows(d, a), CodelistBlock(d, a[0]), CodelistRows(d, a[1..]), CodelistRows(d, b));
  }

  /** `a + b` starts with `a`'s head, followed by `a`'s tail and `b`. */
  lemma ConsOfAppend<T>(a: seq<T>, b: seq<T>)
    requires a != []
    ensures a + b != [] && (a + b)[0] == a[0] && (a + b)[1..] == a[1..] + b
  {
  }

  /** The equational step: from `ab == x + (y + z)` and `xa == x + y`, `ab == xa + z`. */
  lemma Regather<T>(ab: seq<T>, xa: seq<T>, x: seq<T>, y: seq<T>, z: seq<T>)
    requires ab == x + (y + z) && xa == x + y
    ensures ab == xa + z
  {
    assert x + (y + z) == (x + y) + z;
  }

  /** Every row written for the details (`rows` at line 339). */
  function CsvRows(d: Details): (rows: seq<Row>)
    ensures |rows| == |AttributeNames| + RowsNeeded(d.codelists)
    ensures rows[..|AttributeNames|] == AttributeRows(d)
    ensures forall i :: 0 <= i < |rows| ==> InContext(rows[i], d)
    ensures forall i :: |AttributeNames| <= i < |rows| ==> rows[i].parameter == "CodelistTerm"
  {
    AttributeRows(d) + CodelistRows(d, d.codelists)
  }

  /** How many terms the codelists hold in all, and how many have none. */
  function TermTotal(cls: seq<CodelistInfo>): nat {
    if cls == [] then 0 else |cls[0].terms| + TermTotal(cls[1..])
  }

  function EmptyCount(cls: seq<CodelistInfo>): nat {
    if cls == [] then 0 else (if cls[0].terms == [] then 1 else 0) + EmptyCount(cls[1..])
  }

  /** The row count: five attribute rows, one per term, and one placeholder per termless codelist. */
  lemma {:induction false} RowCount(d: Details)
    ensures |CsvRows(d)| == 5 + TermTotal(d.codelists) + EmptyCount(d.codelists)
  {
    RowsNeededSplit(d.codelists);
  }

  lemma {:induction false} RowsNeededSplit(cls: seq<CodelistInfo>)
    ensures RowsNeeded(cls) == TermTotal(cls) + EmptyCount(cls)
  {
    if cls != [] {
      RowsNeededSplit(cls[1..]);
    }
  }

  /** The placeholder appears exactly for the termless codelists: a codelist's block holds it iff it has no terms. */
  lemma PlaceholderIffNoTerms(d: Details, cl: CodelistInfo)
    requires forall t :: t in cl.terms ==> t.term != NoTermsMarker
    ensures (exists r :: r in CodelistBlock(d, cl) && r.term == NoTermsMarker) <==> cl.terms == []
  {
    var rows := CodelistBlock(d, cl);
    if cl.terms == [] {
      assert rows[0] in rows;
    } else {
      forall r | r in rows ensures r.term != NoTermsMarker {
        var i :| 0 <= i < |rows| && rows[i] == r;
        assert cl.terms[i] in cl.terms;
      }
    }
  }

  /** Codelist `k`'s block sits in the CSV right after the attribute rows and the blocks before it. */
  lemma BlockAt(d: Details, k: nat)
    requires k < |d.codelists|
    ensures var start := |AttributeNames| + RowsNeeded(d.codelists[..k]);
            var rows := CsvRows(d);
            && start + RowsFor(d.codelists[k]) <= |rows|
            && rows[start..start + RowsFor(d.codelists[k])] == CodelistBlock(d, d.codelists[k])
  {
    var cls := d.codelists;
    var before, here, after := cls[..k], [cls[k]], cls[k + 1..];
    AroundIndex(cls, k);
    CodelistRowsAppend(d, before, here + after);
    CodelistRowsAppend(d, here, after);
    SingleBlock(d, cls[k]);
    Regroup(CsvRows(d), AttributeRows(d), CodelistRows(d, before), CodelistBlock(d, cls[k]), CodelistRows(d, after));
  }

  /** `s` is what comes before index `k`, the element there, and what follows. */
  lemma AroundIndex<T>(s: seq<T>, k: nat)
    requires k < |s|
    ensures s == s[..k] + ([s[k]] + s[k + 1..])
  {
  }

  /** A single codelist contributes exactly its block. */
  lemma SingleBlock(d: Details, c: CodelistInfo)
    ensures CodelistRows(d, [c]) == CodelistBlock(d, c)
  {
    assert [c][1..] == [];
  }

  /** In `a + (b + (c + e))`, `c` occupies the positions after `a` and `b`. */
  lemma Regroup<T>(s: seq<T>, a: seq<T>, b: seq<T>, c: seq<T>, e: seq<T>)
    requires s == a + (b + (c + e))
    ensures |a| + |b| + |c| <= |s| && s[|a| + |b|..|a| + |b| + |c|] == c
  {
    assert s == (a + b) + c + e;
  }

  /**
   * `main` writes a file only for a successful lookup: a missing version raises
   * and a missing variable gives `None`, and `write_to_csv` returns early on it.
   */
  function CsvFor(o: Outcome): (r: Option<seq<Row>>)
    ensures r.Some? <==> o.Found?
    ensures r.Some? ==> |r.value| >= |AttributeNames| && r.value[..|AttributeNames|] == AttributeRows(o.details)
  {
    if o.Found? then Some(CsvRows(o.details)) else None
  }
}

/**
 * `_find_variable_dataset`: which named data structure of an ADaMIG version declares
 * a variable, directly or inside one of its variable sets.
 */
module Datasets {
  import opened Wrappers
  import opened Text
  import opened CdiscLibrary

  /** The owning structure's name, and whether the match was a direct variable (line 110) or one in a variable set (line 117). */
  datatype DatasetHit = DatasetHit(name: string, direct: bool)

  /** The variable's name, an absent one read as empty, equals the query once both are upper-cased (lines 109 and 116). */
  predicate NameMatches(v: AnalysisVariable, variable: string) {
    Upper(v.name.GetOr("")) == Upper(variable)
  }

  /** `ds.get("name")` is truthy. */
  predicate IsNamed(ds: DataStructure) {
    ds.name.Some? && ds.name.value != ""
  }

  predicate HasDirect(ds: DataStructure, variable: string) {
    exists i :: 0 <= i < |ds.analysisVariables| && NameMatches(ds.analysisVariables[i], variable)
  }

  predicate HasInSets(ds: DataStructure, variable: string) {
    exists i, k :: 0 <= i < |ds.analysisVariableSets| && 0 <= k < |ds.analysisVariableSets[i].analysisVariables|
                   && NameMatches(ds.analysisVariableSets[i].analysisVariables[k], variable)
  }

  /** A structure the scan can answer with. */
  predicate Owns(ds: DataStructure, variable: string) {
    IsNamed(ds) && (HasDirect(ds, variable) || HasInSets(ds, variable))
  }

  /** `structs[i]` owns the variable and no earlier structure does. */
  predicate IsFirstOwner(structs: seq<DataStructure>, i: int, variable: string) {
    && 0 <= i < |structs|
    && Owns(structs[i], variable)
    && forall j :: 0 <= j < i ==> !Owns(structs[j], variable)
  }

  /** The inner loop over one list of variables. */
  function ScanVariables(vars: seq<AnalysisVariable>, variable: string): (r: bool)
    ensures r <==> exists i :: 0 <= i < |vars| && NameMatches(vars[i], variable)
  {
    if vars == [] then false
    else NameMatches(vars[0], variable) || ScanVariables(vars[1..], variable)
  }

  /** The loop over `analysisVariableSets`, each scanned in turn. */
  function ScanSets(sets: seq<VariableSet>, variable: string): (r: bool)
    ensures r <==> exists i, k :: 0 <= i < |sets| && 0 <= k < |sets[i].analysisVariables|
                                  && NameMatches(sets[i].analysisVariables[k], variable)
  {
    if sets == [] then false
    else
      ScanVariables(sets[0].analysisVariables, variable) || ScanSets(sets[1..], variable)
  }

  /** The outer loop: skip unnamed structures, check direct variables, then variable sets. */
  function Locate(structs: seq<DataStructure>, variable: string): (r: Option<DatasetHit>)
    ensures r.None? <==> forall i :: 0 <= i < |structs| ==> !Owns(structs[i], variable)
    ensures r.Some? ==> exists i :: IsFirstOwner(structs, i, variable)
                                    && structs[i].name == Some(r.value.name)
                                    && r.value.direct == HasDirect(structs[i], variable)
  {
    if structs == [] then None
    else
      var ds := structs[0];
      var rest := Locate(structs[1..], variable);
      assert forall i :: 1 <= i < |structs| ==> structs[i] == structs[1..][i - 1];
      if IsNamed(ds) && ScanVariables(ds.analysisVariables, variable) then
        assert IsFirstOwner(structs, 0, variable);
        Some(DatasetHit(ds.name.value, true))
      else if IsNamed(ds) && ScanSets(ds.analysisVariableSets, variable) then
        assert IsFirstOwner(structs, 0, variable);
        Some(DatasetHit(ds.name.value, false))
      else
        assert !Owns(ds, variable);
        assert rest.Some? ==> exists i :: IsFirstOwner(structs, i, variable)
                                          && structs[i].name == Some(rest.value.name)
                                          && rest.value.direct == HasDirect(structs[i], variable) by {
          if rest.Some? {
            var i :| IsFirstOwner(structs[1..], i, variable)
                     && structs[1..][i].name == Some(rest.value.name)
                     && rest.value.direct == HasDirect(structs[1..][i], variable);
            assert IsFirstOwner(structs, i + 1, variable);
          }
        }
        rest
  }

  /** The structures of the tree fetched for `version`, when it has them. */
  function Structures(reg: Registry, version: string): Option<seq<DataStructure>> {
    var tree := Get(reg.trees, TreeRequest(version));
    if tree.Some? then tree.value.dataStructures else None
  }

  /**
   * The whole lookup: one request for the structure tree of the hyphenated version;
   * `None` when that request fails, the tree has no `dataStructures`, or no named
   * structure declares the variable.
   */
  function FindVariableDataset(reg: Registry, variable: string, version: string): (r: Run<Option<DatasetHit>>)
    ensures r.trace == [TreeRequest(Hyphenate(version))]
    ensures r.value.None? <==>
              var structs := Structures(reg, Hyphenate(version));
              structs.None? || forall i :: 0 <= i < |structs.value| ==> !Owns(structs.value[i], variable)
    ensures r.value.Some? ==>
              var structs := Structures(reg, Hyphenate(version)).value;
              exists i :: IsFirstOwner(structs, i, variable)
                          && structs[i].name == Some(r.value.value.name)
                          && r.value.value.direct == HasDirect(structs[i], variable)
  {
    var hyphenated := Hyphenate(version);
    var structs := Structures(reg, hyphenated);
    if structs.None? then Run(None, [TreeRequest(hyphenated)])
    else Run(Locate(structs.value, variable), [TreeRequest(hyphenated)])
  }

  /** The caller hyphenates before calling, and the lookup hyphenates again: the second rewrite changes nothing. */
  lemma SecondRewriteHarmless(reg: Registry, variable: string, version: string)
    ensures FindVariableDataset(reg, variable, Hyphenate(version)) == FindVariableDataset(reg, variable, version)
  {
    HyphenateIdempotent(version);
  }

  lemma UpperIdempotent(s: string)
    ensures Upper(Upper(s)) == Upper(s)
  {
  }

  /** Matching ignores the case of the requested variable name. */
  lemma {:induction false} LocateCaseInsensitive(structs: seq<DataStructure>, variable: string)
    ensures Locate(structs, Upper(variable)) == Locate(structs, variable)
  {
    UpperIdempotent(variable);
    assert forall v :: NameMatches(v, Upper(variable)) == NameMatches(v, variable);
    if structs != [] {
      LocateCaseInsensitive(structs[1..], variable);
      var ds := structs[0];
      assert ScanVariables(ds.analysisVariables, Upper(variable)) == ScanVariables(ds.analysisVariables, variable);
      assert ScanSets(ds.analysisVariableSets, Upper(variable)) == ScanSets(ds.analysisVariableSets, variable);
    }
  }
}

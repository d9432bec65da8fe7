/** Response decoding of the QPE query-parser client
    (`ElsevierAPI/api/hGraphAPI/cm2access/QPEAccess.py`): the three concept
    builders over the decoded JSON of one parsed concept. The HTTP request is
    not modelled. */
module QPEAccess {
  import opened Wrappers
  import opened Json
  import opened Strings
  import opened StyInfo

  const DEFAULT_QPE_URL: string := "http://api.healthcare.elsevier.com:80/h/qpe/nonprod/v1/"

  /** `Concept_orig`: every field holds what the response held, except the two
      lists, which are split out of `|`-separated strings. */
  datatype ConceptOrig = ConceptOrig(
    cfn: Value,
    conceptID: Value,
    medicalName: Value,
    className: Value,
    styCodes: seq<string>,
    queryToken: Value,
    isHealthRelated: Value,
    synonyms: seq<string>)

  /** `Concept`. `styCodes` and `synonyms` are whatever lists the builder made. */
  datatype Concept = Concept(
    cfn: Value,
    conceptID: Value,
    medicalName: Value,
    className: Value,
    styCodes: Value,
    queryToken: Value,
    synonyms: Value)

  /** `[] if v == '' else v.split('|')`; a value that is not a string has no
      `split` and raises `AttributeError`. */
  function PipeList(v: Value): (r: Result<seq<string>>)
    ensures r.Success? <==> v.Str?
    ensures v == Str("") ==> r == Success([])
    ensures r.Success? && v != Str("") ==> |r.value| >= 1 && forall i :: 0 <= i < |r.value| ==> '|' !in r.value[i]
  {
    if v == Str("") then Success([])
    else if v.Str? then Success(Split(v.s, '|'))
    else Failure("AttributeError")
  }

  /** Joining a decoded list with `|` gives the response's string back. */
  lemma PipeListJoin(s: string)
    ensures PipeList(Str(s)).Success? && JoinWith(PipeList(Str(s)).value, "|") == s
  {
    if s != "" {
      JoinSplit(s, '|');
    }
  }

  /** A list is decoded from its `|`-join, unless it is the one list `['']`
      that joins to the empty string. */
  lemma PipeListOfJoin(parts: seq<string>)
    requires forall i :: 0 <= i < |parts| ==> '|' !in parts[i]
    requires parts != [""]
    ensures PipeList(Str(JoinWith(parts, "|"))) == Success(parts)
  {
    if parts != [] {
      SplitJoin(parts, '|');
    }
  }

  /** `_createConcept_orig(jsonResponseMap)` */
  function CreateConceptOrig(response: map<string, Value>): (r: Result<ConceptOrig>)
    ensures r.Success? <==>
      Get(response, "sty_codes", Str("")).Str? && Get(response, "synonyms", Str("")).Str?
    ensures r.Success? ==>
      var c := r.value;
      c.styCodes == PipeList(Get(response, "sty_codes", Str(""))).value &&
      c.synonyms == PipeList(Get(response, "synonyms", Str(""))).value &&
      c.cfn == Get(response, "cfn", Str("")) && c.conceptID == Get(response, "ConceptId", Str("")) &&
      c.medicalName == Get(response, "MedicalName", Str("")) &&
      c.className == Get(response, "ClassName", Str("")) &&
      c.queryToken == Get(response, "Query", Str("notoken")) &&
      c.isHealthRelated == Get(response, "isHealthRelated", Str(""))
  {
    var styCodes := PipeList(Get(response, "sty_codes", Str("")));
    var synonyms := PipeList(Get(response, "synonyms", Str("")));
    if styCodes.Failure? then Failure(styCodes.error)
    else if synonyms.Failure? then Failure(synonyms.error)
    else
      Success(ConceptOrig(
        Get(response, "cfn", Str("")),
        Get(response, "ConceptId", Str("")),
        Get(response, "MedicalName", Str("")),
        Get(response, "ClassName", Str("")),
        styCodes.value,
        Get(response, "Query", Str("notoken")),
        Get(response, "isHealthRelated", Str("")),
        synonyms.value))
  }

  /** A response without any of the keys gives the documented defaults. */
  lemma CreateConceptOrigDefaults()
    ensures CreateConceptOrig(map[]) == Success(ConceptOrig(
      Str(""), Str(""), Str(""), Str(""), [], Str("notoken"), Str(""), []))
  {
  }

  /** `_createConcept(jsonResponseMap)`: the sty list as in CM2, the synonyms
      split on `|`. */
  function CreateConcept(response: map<string, Value>): (r: Result<Concept>)
    ensures var entries := StyEntries(Get(response, "sty_info", Arr([])));
      r.Success? <==>
        entries.Success? && DecodeStys(entries.value).Success? && Get(response, "synonyms", Str("")).Str?
    ensures r.Success? ==>
      var c := r.value;
      var sorted := SortStys(DecodeStys(StyEntries(Get(response, "sty_info", Arr([]))).value).value);
      c.cfn == Get(response, "cfn", Str("")) && c.conceptID == Get(response, "ConceptId", Str("")) &&
      c.medicalName == Get(response, "MedicalName", Str("")) &&
      c.className == FirstPreferredClass(sorted) &&
      c.styCodes == Arr(StyCodes(sorted)) &&
      c.queryToken == Get(response, "Query", Str("notoken")) &&
      c.synonyms == Strs(PipeList(Get(response, "synonyms", Str(""))).value)
  {
    var entries := StyEntries(Get(response, "sty_info", Arr([])));
    if entries.Failure? then Failure(entries.error)
    else
      match DecodeStys(entries.value)
      case Failure(e) => Failure(e)
      case Success(stys) =>
        var sorted := SortStys(stys);
        var synonyms := PipeList(Get(response, "synonyms", Str("")));
        if synonyms.Failure? then Failure(synonyms.error)
        else
          Success(Concept(
            Get(response, "cfn", Str("")),
            Get(response, "ConceptId", Str("")),
            Get(response, "MedicalName", Str("")),
            FirstPreferredClass(sorted),
            Arr(StyCodes(sorted)),
            Get(response, "Query", Str("notoken")),
            Strs(synonyms.value)))
  }

  /** An empty string or empty object as `sty_info` sorts to no entries. */
  lemma CreateConceptEmptyStyInfo(response: map<string, Value>)
    requires "sty_info" in response && response["sty_info"] in {Str(""), Obj(map[])}
    requires Get(response, "synonyms", Str("")).Str?
    ensures var r := CreateConcept(response);
      r.Success? && r.value.styCodes == Arr([]) && r.value.className == Str("")
  {
    assert SortStys([]) == [] by {
      SortStysOrder([]);
    }
  }

  /** `_createConcept_tmp(json_response)`: the identifiers fall back to a
      second key when the first is missing or empty, the class and the query
      token are fixed. */
  function CreateConceptTmp(response: map<string, Value>): (r: Concept)
    ensures Truthy(Get(response, "ConceptId", Str(""))) ==> r.conceptID == response["ConceptId"]
    ensures !Truthy(Get(response, "ConceptId", Str(""))) ==> r.conceptID == Get(response, "imuid", Str(""))
    ensures Truthy(Get(response, "MedicalName", Str(""))) ==> r.medicalName == response["MedicalName"]
    ensures !Truthy(Get(response, "MedicalName", Str(""))) ==> r.medicalName == Get(response, "medicalName", Str(""))
    ensures r.className == Str("diseases") && r.queryToken == Str("notoken")
    ensures r.cfn == Get(response, "cfn", Str(""))
    ensures r.styCodes == Get(response, "semanticTypeCodes", Arr([]))
    ensures r.synonyms == Get(response, "synonyms", Arr([]))
  {
    Concept(
      Get(response, "cfn", Str("")),
      Or(Get(response, "ConceptId", Str("")), Get(response, "imuid", Str(""))),
      Or(Get(response, "MedicalName", Str("")), Get(response, "medicalName", Str(""))),
      Str("diseases"),
      Get(response, "semanticTypeCodes", Arr([])),
      Str("notoken"),
      Get(response, "synonyms", Arr([])))
  }
}

/** Response decoding of the CM2 annotation client (`api/hGraphAPI/cm2access/CM2Access.py`):
    the `body_cp` tokenizer and the two concept builders. The HTTP request is not modelled:
    the decoded JSON of one `imuids` entry is a parameter. */
module CM2Access {
  import opened Wrappers
  import opened Json
  import opened Strings
  import opened StyInfo

  const DEFAULT_CM2_URL: string := "https://cm2-hgraph.graph.hmelsevier.com/cm2api"

  // ---------------------------------------------------------- _bodyCpToIdMap

  /** `[a.split('$') for a in s.split()]` */
  function TokenPieces(s: string): (r: seq<seq<string>>)
    ensures |r| == |WsSplit(s)|
    ensures forall i :: 0 <= i < |r| ==> r[i] == Split(WsSplit(s)[i], '$')
  {
    var ws := WsSplit(s);
    seq(|ws|, i requires 0 <= i < |ws| => Split(ws[i], '$'))
  }

  /** `code` is one of the segments before the last one of a token. */
  predicate CodeOf(pieces: seq<string>, code: string)
  {
    |pieces| >= 2 && code in pieces[..|pieces| - 1]
  }

  /** `m` after `m[code] = v` for each code in turn. */
  function Assign(m: map<string, string>, codes: seq<string>, v: string): map<string, string>
  {
    if codes == [] then m else Assign(m, codes[..|codes| - 1], v)[codes[|codes| - 1] := v]
  }

  lemma {:induction false} AssignSpec(m: map<string, string>, codes: seq<string>, v: string, c: string)
    ensures c in Assign(m, codes, v) <==> c in m || c in codes
    ensures c in codes ==> Assign(m, codes, v)[c] == v
    ensures c !in codes && c in m ==> Assign(m, codes, v)[c] == m[c]
  {
    if codes != [] {
      var init := codes[..|codes| - 1];
      AssignSpec(m, init, v, c);
      assert codes == init + [codes[|codes| - 1]];
    }
  }

  /** What one token adds: each of its codes maps to its last segment. */
  function AddCodes(m: map<string, string>, pieces: seq<string>): map<string, string>
  {
    if |pieces| < 2 then m else Assign(m, pieces[..|pieces| - 1], pieces[|pieces| - 1])
  }

  /** The map built from the tokens in order. */
  function CodeMap(ts: seq<seq<string>>): map<string, string>
  {
    if ts == [] then map[] else AddCodes(CodeMap(ts[..|ts| - 1]), ts[|ts| - 1])
  }

  /** `_bodyCpToIdMap(s)`: the map from each code to the query term after it. */
  method BodyCpToIdMap(s: string) returns (retVal: map<string, string>)
    ensures retVal == CodeMap(TokenPieces(s))
  {
    var tokenWithCodes := TokenPieces(s);
    retVal := map[];
    for t := 0 to |tokenWithCodes|
      invariant retVal == CodeMap(tokenWithCodes[..t])
    {
      var tokenWithCode := tokenWithCodes[t];
      CodeMapStep(tokenWithCodes, t);
      if |tokenWithCode| < 2 {
        // like 'case' or '1998': no associated codes
        continue;
      }
      var codes := tokenWithCode[..|tokenWithCode| - 1];
      var term := tokenWithCode[|tokenWithCode| - 1];
      ghost var before := retVal;
      for k := 0 to |codes|
        invariant retVal == Assign(before, codes[..k], term)
      {
        AssignStep(before, codes, k, term);
        retVal := retVal[codes[k] := term];
      }
      assert codes[..|codes|] == codes;
    }
    assert tokenWithCodes[..|tokenWithCodes|] == tokenWithCodes;
  }

  lemma AssignStep(m: map<string, string>, codes: seq<string>, k: nat, v: string)
    requires k < |codes|
    ensures Assign(m, codes[..k + 1], v) == Assign(m, codes[..k], v)[codes[k] := v]
  {
    assert codes[..k + 1][..k] == codes[..k];
  }

  lemma CodeMapStep(ts: seq<seq<string>>, t: nat)
    requires t < |ts|
    ensures CodeMap(ts[..t + 1]) == AddCodes(CodeMap(ts[..t]), ts[t])
  {
    assert ts[..t + 1][..t] == ts[..t];
  }

  /** A code is in the map exactly when some token lists it before its last segment. */
  lemma {:induction false} CodeMapKeys(ts: seq<seq<string>>, code: string)
    ensures code in CodeMap(ts) <==> exists i :: 0 <= i < |ts| && CodeOf(ts[i], code)
  {
    if ts != [] {
      var init, last := ts[..|ts| - 1], ts[|ts| - 1];
      CodeMapKeys(init, code);
      assert forall i :: 0 <= i < |init| ==> init[i] == ts[i];
      if |last| >= 2 {
        AssignSpec(CodeMap(init), last[..|last| - 1], last[|last| - 1], code);
      }
    }
  }

  /** The last token that lists a code supplies its term: a later token wins. */
  lemma {:induction false} CodeMapLatest(ts: seq<seq<string>>, i: nat, code: string)
    requires i < |ts| && CodeOf(ts[i], code)
    requires forall j :: i < j < |ts| ==> !CodeOf(ts[j], code)
    ensures code in CodeMap(ts) && CodeMap(ts)[code] == ts[i][|ts[i]| - 1]
  {
    var init, last := ts[..|ts| - 1], ts[|ts| - 1];
    if i < |ts| - 1 {
      assert forall j :: i < j < |init| ==> init[j] == ts[j];
      CodeMapLatest(init, i, code);
      if |last| >= 2 {
        AssignSpec(CodeMap(init), last[..|last| - 1], last[|last| - 1], code);
      }
    } else {
      AssignSpec(CodeMap(init), last[..|last| - 1], last[|last| - 1], code);
    }
  }

  /** A whitespace token without `$` contributes no entry. */
  lemma TokenWithoutCodes(s: string, i: nat)
    requires i < |WsSplit(s)| && '$' !in WsSplit(s)[i]
    ensures forall code :: !CodeOf(TokenPieces(s)[i], code)
  {
    SplitNoSep(WsSplit(s)[i], '$');
  }

  /** The tokens of the docstring's example `'case 5304448$diagnos
      2791947$5047367$peacrnm 1998 8815274$cost'`: the code also yields
      `'8815274': 'cost'`, which the docstring's result leaves out. */
  lemma DocstringExample()
    ensures CodeMap([["case"], ["5304448", "diagnos"], ["2791947", "5047367", "peacrnm"], ["1998"], ["8815274", "cost"]])
      == map["5304448" := "diagnos", "2791947" := "peacrnm", "5047367" := "peacrnm", "8815274" := "cost"]
  {
    var ts: seq<seq<string>> := [["case"], ["5304448", "diagnos"], ["2791947", "5047367", "peacrnm"], ["1998"], ["8815274", "cost"]];
    var m1: map<string, string> := map["5304448" := "diagnos"];
    var m3 := m1["2791947" := "peacrnm"]["5047367" := "peacrnm"];
    assert ts[..1][..0] == [];
    assert CodeMap(ts[..1]) == map[];
    assert ts[..2][..1] == ts[..1];
    assert ["5304448", "diagnos"][..1] == ["5304448"] && ["5304448"][..0] == [];
    assert ts[..2][1] == ts[1];
    assert Assign(map[], ["5304448"], "diagnos") == m1;
    assert AddCodes(map[], ts[1]) == m1;
    assert CodeMap(ts[..2]) == m1;
    assert ts[..3][..2] == ts[..2];
    var codes := ["2791947", "5047367"];
    assert ["2791947", "5047367", "peacrnm"][..2] == codes;
    assert codes[..1] == ["2791947"] && ["2791947"][..0] == [];
    assert Assign(m1, codes, "peacrnm") == m3;
    assert ts[..3][2] == ts[2];
    assert CodeMap(ts[..3]) == m3;
    assert ts[..4][..3] == ts[..3];
    assert ts[..4][3] == ts[3];
    assert CodeMap(ts[..4]) == m3;
    assert ts[..4] == ts[..|ts| - 1];
    assert ["8815274", "cost"][..1] == ["8815274"] && ["8815274"][..0] == [];
    assert ts[4] == ["8815274", "cost"];
    assert ts[4][..|ts[4]| - 1] == ["8815274"];
    assert Assign(m3, ["8815274"], "cost") == m3["8815274" := "cost"];
    assert AddCodes(m3, ts[4]) == m3["8815274" := "cost"];
    assert CodeMap(ts) == m3["8815274" := "cost"];
  }

  // ------------------------------------------------------------ the concepts

  /** The CM2 `Concept` (and `Concept_orig`, which has the same fields). */
  datatype Concept = Concept(
    cfn: Value,
    conceptID: string,
    medicalName: Value,
    className: Value,
    styCodes: seq<Value>,
    maprelevancy: Value,
    queryToken: string)

  /** `idMap.get(imuid, 'notoken')` */
  function QueryToken(imuid: string, idMap: map<string, string>): (t: string)
    ensures imuid in idMap ==> t == idMap[imuid]
    ensures imuid !in idMap ==> t == "notoken"
  {
    if imuid in idMap then idMap[imuid] else "notoken"
  }

  // ---------------------------------------------------- _createConcept_orig

  predicate AsciiDigit(c: char)
  {
    '0' <= c <= '9'
  }

  /** A match of `[A-Z]\d{3}`. */
  predicate IsStyCode(w: string)
  {
    |w| == 4 && 'A' <= w[0] <= 'Z' && AsciiDigit(w[1]) && AsciiDigit(w[2]) && AsciiDigit(w[3])
  }

  /** `re.findall(r'[A-Z]\d{3}', s)`: the leftmost match, then the search goes on after it. */
  function FindStyCodes(s: string): (r: seq<string>)
    ensures forall k :: 0 <= k < |r| ==> IsStyCode(r[k])
    decreases |s|
  {
    if |s| < 4 then []
    else if IsStyCode(s[..4]) then [s[..4]] + FindStyCodes(s[4..])
    else FindStyCodes(s[1..])
  }

  /** A sty code starts at position `q` of `s`. */
  predicate MatchAt(s: string, q: nat)
  {
    q + 4 <= |s| && IsStyCode(s[q..q + 4])
  }

  /** No sty code starts at a position in `[lo, hi)`. */
  predicate NoMatchIn(s: string, lo: nat, hi: nat)
  {
    forall q :: lo <= q < hi ==> !MatchAt(s, q)
  }

  /** `ps` are the starts of the leftmost non-overlapping matches in `s[i..]`:
      each is a match, each begins at or after the end of the one before, and no
      match starts in a gap between them (before the first, between the end of
      one and the start of the next, or after the end of the last). */
  predicate LeftmostMatches(s: string, i: nat, ps: seq<nat>)
  {
    (forall k :: 0 <= k < |ps| ==> i <= ps[k] && MatchAt(s, ps[k])) &&
    (forall k :: 0 <= k < |ps| - 1 ==> ps[k] + 4 <= ps[k + 1] && NoMatchIn(s, ps[k] + 4, ps[k + 1])) &&
    (if ps == [] then NoMatchIn(s, i, |s|)
     else NoMatchIn(s, i, ps[0]) && NoMatchIn(s, ps[|ps| - 1] + 4, |s|))
  }

  /** The start positions `findall` reports, scanning from `i`. */
  function MatchStarts(s: string, i: nat): (ps: seq<nat>)
    requires i <= |s|
    ensures forall k :: 0 <= k < |ps| ==> i <= ps[k] && ps[k] + 4 <= |s|
    decreases |s| - i
  {
    if i + 4 > |s| then []
    else if IsStyCode(s[i..i + 4]) then [i] + MatchStarts(s, i + 4)
    else MatchStarts(s, i + 1)
  }

  /** A match at `i` followed by the leftmost matches after it. */
  lemma LeftmostCons(s: string, i: nat, rest: seq<nat>)
    requires MatchAt(s, i)
    requires LeftmostMatches(s, i + 4, rest)
    ensures LeftmostMatches(s, i, [i] + rest)
  {
    var ps := [i] + rest;
    forall k | 0 <= k < |ps| ensures i <= ps[k] && MatchAt(s, ps[k]) {
      if k > 0 { assert ps[k] == rest[k - 1]; }
    }
    forall k | 0 <= k < |ps| - 1 ensures ps[k] + 4 <= ps[k + 1] && NoMatchIn(s, ps[k] + 4, ps[k + 1]) {
      if k > 0 { assert ps[k] == rest[k - 1] && ps[k + 1] == rest[k]; }
    }
    assert NoMatchIn(s, i, ps[0]);
    if rest != [] {
      assert ps[|ps| - 1] == rest[|rest| - 1];
    }
  }

  /** No match at `i`: the leftmost matches from `i + 1` are those from `i`. */
  lemma LeftmostSkip(s: string, i: nat, ps: seq<nat>)
    requires !MatchAt(s, i)
    requires LeftmostMatches(s, i + 1, ps)
    ensures LeftmostMatches(s, i, ps)
  {
    if ps == [] {
      assert NoMatchIn(s, i, |s|);
    } else {
      assert NoMatchIn(s, i, ps[0]);
    }
  }

  lemma {:induction false} MatchStartsLeftmost(s: string, i: nat)
    requires i <= |s|
    ensures LeftmostMatches(s, i, MatchStarts(s, i))
    decreases |s| - i
  {
    if i + 4 > |s| {
      assert NoMatchIn(s, i, |s|);
    } else if MatchAt(s, i) {
      MatchStartsLeftmost(s, i + 4);
      LeftmostCons(s, i, MatchStarts(s, i + 4));
    } else {
      MatchStartsLeftmost(s, i + 1);
      LeftmostSkip(s, i, MatchStarts(s, i + 1));
    }
  }

  /** The codes at the given starts, in order. */
  function CodesAt(s: string, ps: seq<nat>): (r: seq<string>)
    requires forall k :: 0 <= k < |ps| ==> ps[k] + 4 <= |s|
    ensures |r| == |ps|
    ensures forall k :: 0 <= k < |ps| ==> r[k] == s[ps[k]..ps[k] + 4]
  {
    if ps == [] then [] else [s[ps[0]..ps[0] + 4]] + CodesAt(s, ps[1..])
  }

  /** `FindStyCodes` returns the codes at `MatchStarts`. */
  lemma {:induction false} FindStyCodesAt(s: string, i: nat)
    requires i <= |s|
    ensures FindStyCodes(s[i..]) == CodesAt(s, MatchStarts(s, i))
    decreases |s| - i
  {
    var t := s[i..];
    if i + 4 <= |s| {
      assert t[..4] == s[i..i + 4];
      if IsStyCode(s[i..i + 4]) {
        assert t[4..] == s[i + 4..];
        FindStyCodesAt(s, i + 4);
        assert ([i] + MatchStarts(s, i + 4))[1..] == MatchStarts(s, i + 4);
      } else {
        assert t[1..] == s[i + 1..];
        FindStyCodesAt(s, i + 1);
      }
    }
  }

  /** `re.findall(r'[A-Z]\d{3}', s)` returns the leftmost non-overlapping matches, in order. */
  lemma FindStyCodesLeftmost(s: string)
    ensures var ps := MatchStarts(s, 0);
      LeftmostMatches(s, 0, ps) && FindStyCodes(s) == CodesAt(s, ps)
  {
    MatchStartsLeftmost(s, 0);
    FindStyCodesAt(s, 0);
    assert s[0..] == s;
  }

  predicate NoCapital(s: string)
  {
    forall i :: 0 <= i < |s| ==> !('A' <= s[i] <= 'Z')
  }

  lemma {:induction false} FindStyCodesSkip(sep: string, rest: string)
    requires NoCapital(sep)
    ensures FindStyCodes(sep + rest) == FindStyCodes(rest)
  {
    if sep != [] {
      var s := sep + rest;
      assert s[0] == sep[0] && s[1..] == sep[1..] + rest;
      FindStyCodesSkip(sep[1..], rest);
      if |s| < 4 {
        assert FindStyCodes(sep[1..] + rest) == [];
      }
    } else {
      assert sep + rest == rest;
    }
  }

  /** Codes written one after another with separators free of capital letters
      (such as `,`, `|` or spaces) are found again, in order. */
  lemma {:induction false} FindStyCodesJoin(codes: seq<string>, sep: string)
    requires forall k :: 0 <= k < |codes| ==> IsStyCode(codes[k])
    requires NoCapital(sep)
    ensures FindStyCodes(JoinWith(codes, sep)) == codes
  {
    if |codes| == 1 {
      assert codes[0][..4] == codes[0];
    } else if |codes| > 1 {
      var c, tail := codes[0], codes[1..];
      var rest := JoinWith(tail, sep);
      var s := c + sep + rest;
      assert s[..4] == c && s[4..] == sep + rest;
      FindStyCodesSkip(sep, rest);
      FindStyCodesJoin(tail, sep);
      assert [c] + tail == codes;
    }
  }

  /** `_createConcept_orig(imuid, jsonResponseMap, idMap)`: fails with `TypeError`
      when `semanticCodes` is present but not a string. */
  function CreateConceptOrig(imuid: string, response: map<string, Value>, idMap: map<string, string>): (r: Result<Concept>)
    ensures r.Failure? <==> !Get(response, "semanticCodes", Str("")).Str?
    ensures r.Success? ==>
      var c := r.value;
      c.conceptID == imuid && c.queryToken == QueryToken(imuid, idMap) &&
      c.cfn == Get(response, "cfn", Str("")) && c.medicalName == Get(response, "mn", Str("")) &&
      c.className == Get(response, "semanticGroup", Str("")) &&
      c.maprelevancy == Get(response, "maprelevancy", Str("")) &&
      |c.styCodes| == |FindStyCodes(Get(response, "semanticCodes", Str("")).s)| &&
      forall k :: 0 <= k < |c.styCodes| ==>
        c.styCodes[k] == Str(FindStyCodes(Get(response, "semanticCodes", Str("")).s)[k]) &&
        IsStyCode(c.styCodes[k].s)
  {
    var styCodesText := Get(response, "semanticCodes", Str(""));
    if !styCodesText.Str? then Failure("TypeError")
    else
      Success(Concept(
        Get(response, "cfn", Str("")),
        imuid,
        Get(response, "mn", Str("")),
        Get(response, "semanticGroup", Str("")),
        Strs(FindStyCodes(styCodesText.s)).items,
        Get(response, "maprelevancy", Str("")),
        QueryToken(imuid, idMap)))
  }

  // --------------------------------------------------------- _createConcept

  /** `_createConcept(imuid, jsonResponseMap, idMap)`: `sty_info` defaults to
      `[]`; a malformed entry fails the call. */
  function CreateConcept(imuid: string, response: map<string, Value>, idMap: map<string, string>): (r: Result<Concept>)
    ensures var entries := StyEntries(Get(response, "sty_info", Arr([])));
      r.Success? <==> entries.Success? && DecodeStys(entries.value).Success?
    ensures r.Success? ==>
      var c := r.value;
      var sorted := SortStys(DecodeStys(StyEntries(Get(response, "sty_info", Arr([]))).value).value);
      c.conceptID == imuid && c.queryToken == QueryToken(imuid, idMap) &&
      c.cfn == Get(response, "cfn", Str("")) && c.medicalName == Get(response, "mn", Str("")) &&
      c.maprelevancy == Get(response, "maprelevancy", Str("")) &&
      c.className == FirstPreferredClass(sorted) &&
      c.styCodes == StyCodes(sorted)
  {
    var entries := StyEntries(Get(response, "sty_info", Arr([])));
    if entries.Failure? then Failure(entries.error)
    else
      match DecodeStys(entries.value)
      case Failure(e) => Failure(e)
      case Success(stys) =>
        var sorted := SortStys(stys);
        Success(Concept(
          Get(response, "cfn", Str("")),
          imuid,
          Get(response, "mn", Str("")),
          FirstPreferredClass(sorted),
          StyCodes(sorted),
          Get(response, "maprelevancy", Str("")),
          QueryToken(imuid, idMap)))
  }

  /** An empty string or empty object as `sty_info` sorts to no entries: no sty
      codes and an empty class name. */
  lemma CreateConceptEmptyStyInfo(imuid: string, response: map<string, Value>, idMap: map<string, string>)
    requires "sty_info" in response && response["sty_info"] in {Str(""), Obj(map[])}
    ensures var r := CreateConcept(imuid, response, idMap);
      r.Success? && r.value.styCodes == [] && r.value.className == Str("")
  {
    assert SortStys([]) == [] by {
      SortStysOrder([]);
    }
  }
}

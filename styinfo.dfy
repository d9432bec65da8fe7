/** The `sty_info` list of a concept response, shared by the CM2 and QPE
    clients (`api/hGraphAPI/cm2access/CM2Access.py` and
    `ElsevierAPI/api/hGraphAPI/cm2access/QPEAccess.py` read it the same way):
    its entries, their two-pass sort and the class-name choice. */
module StyInfo {
  import opened Wrappers
  import opened Json
  import Sorting

  /** One `sty_info` entry with the fields the sort reads. */
  datatype Sty = Sty(name: string, preferred: bool, code: Value, entry: map<string, Value>)

  /** Reading `r['name']`, `r['preferred']` and `c['code']` of an entry: a
      missing key raises `KeyError`. Names are strings and the preferred flags
      booleans (anything else is reported as `TypeError`). */
  function DecodeSty(v: Value): (r: Result<Sty>)
    ensures r.Success? ==>
      (v.Obj? && r.value.entry == v.fields &&
       "name" in v.fields && v.fields["name"] == Str(r.value.name) &&
       "preferred" in v.fields && v.fields["preferred"] == Bool(r.value.preferred) &&
       "code" in v.fields && v.fields["code"] == r.value.code)
    ensures (v.Obj? && "name" in v.fields && "preferred" in v.fields && "code" in v.fields &&
             v.fields["name"].Str? && v.fields["preferred"].Bool?) ==> r.Success?
    ensures r.Failure? ==> r.error == "TypeError" || r.error == "KeyError"
  {
    if !v.Obj? then Failure("TypeError")
    else if "name" !in v.fields || "preferred" !in v.fields || "code" !in v.fields then Failure("KeyError")
    else if !v.fields["name"].Str? || !v.fields["preferred"].Bool? then Failure("TypeError")
    else Success(Sty(v.fields["name"].s, v.fields["preferred"].b, v.fields["code"], v.fields))
  }

  /** The entries `sorted` iterates over: a list gives its items, and an empty
      string or empty object gives none. Any other value makes `sorted` raise
      `TypeError`, either at once or when the key function subscripts a
      character or a key. */
  function StyEntries(info: Value): (r: Result<seq<Value>>)
    ensures r.Success? <==> info.Arr? || info == Str("") || info == Obj(map[])
    ensures info.Arr? ==> r == Success(info.items)
    ensures r.Success? && !info.Arr? ==> r.value == []
    ensures r.Failure? ==> r.error == "TypeError"
  {
    match info
    case Arr(items) => Success(items)
    case Str(s) => if s == "" then Success([]) else Failure("TypeError")
    case Obj(fields) => if fields == map[] then Success([]) else Failure("TypeError")
    case _ => Failure("TypeError")
  }

  function DecodeStys(vs: seq<Value>): (r: Result<seq<Sty>>)
    ensures r.Success? <==> forall i :: 0 <= i < |vs| ==> DecodeSty(vs[i]).Success?
    ensures r.Success? ==> |r.value| == |vs| && forall i :: 0 <= i < |vs| ==> r.value[i] == DecodeSty(vs[i]).value
  {
    if vs == [] then Success([])
    else
      var init := vs[..|vs| - 1];
      var last := DecodeSty(vs[|vs| - 1]);
      var front := DecodeStys(init);
      assert forall i :: 0 <= i < |init| ==> init[i] == vs[i];
      if front.Failure? then front
      else if last.Failure? then Failure(last.error)
      else Success(front.value + [last.value])
  }

  function NameKey(r: Sty): seq<int>
  {
    Sorting.StrKey(r.name)
  }

  function PreferredKey(r: Sty): seq<int>
  {
    Sorting.BoolKey(r.preferred)
  }

  /** `sorted(sorted(sty_info, key=name), key=preferred, reverse=True)` */
  function SortStys(stys: seq<Sty>): seq<Sty>
  {
    Sorting.SortBy(Sorting.SortBy(stys, NameKey, false), PreferredKey, true)
  }

  /** The entries are reordered, none lost or added: preferred entries come first,
      and within each group the names ascend. */
  lemma SortStysOrder(stys: seq<Sty>)
    ensures multiset(SortStys(stys)) == multiset(stys)
    ensures Sorting.SortedThenBy(SortStys(stys), PreferredKey, true, NameKey, false)
  {
    Sorting.SortBySorted(stys, NameKey, false);
    Sorting.SortByThenBy(Sorting.SortBy(stys, NameKey, false), PreferredKey, true, NameKey, false);
  }

  /** `[c['code'] for c in sty_info]` */
  function StyCodes(sorted: seq<Sty>): (codes: seq<Value>)
    ensures |codes| == |sorted|
    ensures forall k :: 0 <= k < |sorted| ==> codes[k] == sorted[k].code
  {
    seq(|sorted|, k requires 0 <= k < |sorted| => sorted[k].code)
  }

  /** The `class_name` of the first preferred entry, or `''`. */
  function FirstPreferredClass(sorted: seq<Sty>): (v: Value)
  {
    if sorted == [] then Str("")
    else if sorted[0].preferred then Get(sorted[0].entry, "class_name", Str(""))
    else FirstPreferredClass(sorted[1..])
  }

  /** After the sort, the class name is `''` when no entry is preferred, and
      otherwise comes from a preferred entry whose name no other preferred entry
      precedes; that entry is the first of the sorted list. */
  lemma ClassNameChoice(stys: seq<Sty>)
    ensures var sorted := SortStys(stys);
      (forall i :: 0 <= i < |stys| ==> !stys[i].preferred) ==> FirstPreferredClass(sorted) == Str("")
    ensures var sorted := SortStys(stys);
      (exists i :: 0 <= i < |stys| && stys[i].preferred) ==>
        sorted[0].preferred && sorted[0] in stys &&
        FirstPreferredClass(sorted) == Get(sorted[0].entry, "class_name", Str("")) &&
        forall i :: 0 <= i < |stys| && stys[i].preferred ==> !Sorting.LexLess(NameKey(stys[i]), NameKey(sorted[0]))
  {
    var sorted := SortStys(stys);
    SortStysOrder(stys);
    if forall i :: 0 <= i < |stys| ==> !stys[i].preferred {
      NoPreferredClass(sorted, stys);
    } else {
      PreferredFirst(sorted, stys);
    }
  }

  /** In a permutation of `stys` ordered preferred-first and then by name, some
      preferred entry comes first, and no preferred entry has a smaller name. */
  lemma PreferredFirst(sorted: seq<Sty>, stys: seq<Sty>)
    requires multiset(sorted) == multiset(stys)
    requires Sorting.SortedThenBy(sorted, PreferredKey, true, NameKey, false)
    requires exists i :: 0 <= i < |stys| && stys[i].preferred
    ensures sorted != [] && sorted[0].preferred && sorted[0] in stys
    ensures FirstPreferredClass(sorted) == Get(sorted[0].entry, "class_name", Str(""))
    ensures forall i :: 0 <= i < |stys| && stys[i].preferred ==> !Sorting.LexLess(NameKey(stys[i]), NameKey(sorted[0]))
  {
    var i0 :| 0 <= i0 < |stys| && stys[i0].preferred;
    assert stys[i0] in multiset(sorted);
    var j0 :| 0 <= j0 < |sorted| && sorted[j0] == stys[i0];
    if j0 > 0 {
      assert !Sorting.Precedes(PreferredKey(sorted[j0]), PreferredKey(sorted[0]), true);
    }
    assert sorted[0] in multiset(stys);
    forall i | 0 <= i < |stys| && stys[i].preferred
      ensures !Sorting.LexLess(NameKey(stys[i]), NameKey(sorted[0]))
    {
      assert stys[i] in multiset(sorted);
      var j :| 0 <= j < |sorted| && sorted[j] == stys[i];
      if j == 0 {
        Sorting.LexIrreflexive(NameKey(sorted[0]));
      } else {
        assert PreferredKey(sorted[0]) == PreferredKey(sorted[j]);
      }
    }
  }

  lemma NoPreferredClass(sorted: seq<Sty>, stys: seq<Sty>)
    requires multiset(sorted) == multiset(stys)
    requires forall i :: 0 <= i < |stys| ==> !stys[i].preferred
    ensures FirstPreferredClass(sorted) == Str("")
  {
    var k := 0;
    while k < |sorted|
      invariant 0 <= k <= |sorted|
      invariant FirstPreferredClass(sorted) == FirstPreferredClass(sorted[k..])
    {
      assert sorted[k] in multiset(stys);
      assert sorted[k..][1..] == sorted[k + 1..];
      k := k + 1;
    }
  }
}

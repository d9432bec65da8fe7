/** The offset merge of the SoDA matcher (`api/hGraphAPI/cm2access/SodaMatch.py`):
    concepts, as the dictionaries `_asdict()` makes of them, gain the `begin`
    and `end` of the SoDA annotation with their id. The SoDA request is not
    modelled: its decoded response is a parameter, `None` standing for a
    connection error. */
module SodaMatch {
  import opened Wrappers
  import opened Json

  /** A value Python can use as a dictionary key: lists and dicts are unhashable,
      and using one raises `TypeError`. */
  predicate Hashable(v: Value)
  {
    !v.Arr? && !v.Obj?
  }

  /** An annotation the comprehension can index: a dictionary with a hashable `id`. */
  predicate Indexable(a: Value)
  {
    a.Obj? && "id" in a.fields && Hashable(a.fields["id"])
  }

  /** `{a['id']: a for a in soda_annotations[::-1]}`: the list is walked from
      its end, so for an id shared by several annotations the first one stays. */
  function AnnotationIndex(annotations: seq<Value>): (r: Result<map<Value, map<string, Value>>>)
    ensures r.Success? ==> forall id :: id in r.value ==> "id" in r.value[id] && r.value[id]["id"] == id
    ensures r.Success? <==> forall i :: 0 <= i < |annotations| ==> Indexable(annotations[i])
  {
    if annotations == [] then Success(map[])
    else
      assert forall i :: 1 <= i < |annotations| ==> annotations[i] == annotations[1..][i - 1];
      match AnnotationIndex(annotations[1..])
      case Failure(e) =>
        assert exists i :: 1 <= i < |annotations| && !Indexable(annotations[i]);
        Failure(e)
      case Success(rest) =>
        var a := annotations[0];
        if !a.Obj? then Failure("TypeError")
        else if "id" !in a.fields then Failure("KeyError")
        else if !Hashable(a.fields["id"]) then Failure("TypeError")
        else Success(rest[a.fields["id"] := a.fields])
  }

  /** Annotation `i` carries `id`. */
  predicate HasId(annotations: seq<Value>, i: int, id: Value)
    requires 0 <= i < |annotations|
  {
    annotations[i].Obj? && "id" in annotations[i].fields && annotations[i].fields["id"] == id
  }

  /** The index holds an id exactly when some annotation has it, and maps it
      to the first annotation with that id. */
  lemma {:induction false} AnnotationIndexFirst(annotations: seq<Value>, id: Value)
    requires AnnotationIndex(annotations).Success?
    ensures id in AnnotationIndex(annotations).value <==>
      exists i :: 0 <= i < |annotations| && HasId(annotations, i, id)
    ensures id in AnnotationIndex(annotations).value ==>
      exists i :: 0 <= i < |annotations| && HasId(annotations, i, id) &&
        AnnotationIndex(annotations).value[id] == annotations[i].fields &&
        forall j :: 0 <= j < i ==> !HasId(annotations, j, id)
  {
    if annotations != [] {
      var tail := annotations[1..];
      AnnotationIndexUnfold(annotations);
      var m, mt := AnnotationIndex(annotations).value, AnnotationIndex(tail).value;
      var first := annotations[0].fields;
      AnnotationIndexFirst(tail, id);
      forall i | 0 <= i < |tail| ensures HasId(annotations, i + 1, id) == HasId(tail, i, id) {
        assert tail[i] == annotations[i + 1];
      }
      if first["id"] == id {
        assert HasId(annotations, 0, id);
        assert m[id] == first;
      } else {
        assert !HasId(annotations, 0, id);
        assert id in m <==> id in mt;
        if id in mt {
          var i :| 0 <= i < |tail| && HasId(tail, i, id) && mt[id] == tail[i].fields &&
            forall j :: 0 <= j < i ==> !HasId(tail, j, id);
          assert HasId(annotations, i + 1, id) && m[id] == annotations[i + 1].fields;
          forall j | 0 <= j < i + 1 ensures !HasId(annotations, j, id) {
            if j > 0 {
              assert !HasId(tail, j - 1, id);
            }
          }
        }
        if exists i :: 0 <= i < |annotations| && HasId(annotations, i, id) {
          var i :| 0 <= i < |annotations| && HasId(annotations, i, id);
          assert HasId(tail, i - 1, id);
        }
      }
    }
  }

  /** The index of a nonempty list is the index of its tail with the first annotation
      put over any later one of the same id. */
  lemma AnnotationIndexUnfold(annotations: seq<Value>)
    requires annotations != [] && AnnotationIndex(annotations).Success?
    ensures AnnotationIndex(annotations[1..]).Success?
    ensures var a := annotations[0];
      a.Obj? && "id" in a.fields && Hashable(a.fields["id"]) &&
      AnnotationIndex(annotations).value == AnnotationIndex(annotations[1..]).value[a.fields["id"] := a.fields]
  {
  }

  /** One concept after the loop body: `begin` and `end` copied from its
      annotation, if it has one. */
  function Offset(c: map<string, Value>, index: map<Value, map<string, Value>>): (r: Result<map<string, Value>>)
    ensures r.Success? <==>
      ("conceptID" in c && Hashable(c["conceptID"]) &&
       (c["conceptID"] in index ==> "begin" in index[c["conceptID"]] && "end" in index[c["conceptID"]]))
    ensures r.Success? && c["conceptID"] !in index ==> r.value == c
    ensures r.Success? && c["conceptID"] in index ==>
      var a := index[c["conceptID"]];
      "begin" in r.value && r.value["begin"] == a["begin"] &&
      "end" in r.value && r.value["end"] == a["end"] &&
      forall k :: k != "begin" && k != "end" ==> (k in r.value <==> k in c) && (k in c ==> r.value[k] == c[k])
  {
    if "conceptID" !in c then Failure("KeyError")
    else if !Hashable(c["conceptID"]) then Failure("TypeError")
    else if c["conceptID"] !in index then Success(c)
    else
      var a := index[c["conceptID"]];
      if "begin" !in a || "end" !in a then Failure("KeyError")
      else Success(c["begin" := a["begin"]]["end" := a["end"]])
  }

  /** `soda_annot_resp.get('annotations', [])` as a list to reverse: a string
      reverses too, and an empty one gives no annotations; anything else has no
      `[::-1]` (`TypeError`), and the characters of a non-empty string are no
      dictionaries (`TypeError`). */
  function Annotations(response: map<string, Value>): (r: Result<seq<Value>>)
    ensures "annotations" !in response ==> r == Success([])
    ensures Get(response, "annotations", Arr([])) == Str("") ==> r == Success([])
    ensures var a := Get(response, "annotations", Arr([]));
      (r.Success? <==> a.Arr? || a == Str("")) &&
      (a.Arr? ==> r == Success(a.items)) &&
      (r.Failure? ==> r.error == "TypeError")
  {
    match Get(response, "annotations", Arr([]))
    case Arr(items) => Success(items)
    case Str(s) => if s == "" then Success([]) else Failure("TypeError")
    case _ => Failure("TypeError")
  }

  /** The result of `concept_list_with_offsets` for a response: every concept
      through `Offset`, in order. */
  predicate Merged(clist: seq<map<string, Value>>, index: map<Value, map<string, Value>>, r: seq<map<string, Value>>)
  {
    |r| == |clist| &&
    forall i :: 0 <= i < |clist| ==> Offset(clist[i], index).Success? && r[i] == Offset(clist[i], index).value
  }

  /** `concept_list_with_offsets(clist, lexicon, text, matching)`, with the SoDA
      response in place of the request. The dictionaries are updated in place,
      one after another. */
  method ConceptListWithOffsets(clist: seq<map<string, Value>>, response: Option<map<string, Value>>)
      returns (r: Result<seq<map<string, Value>>>)
    ensures response.None? ==> r == Success(clist)
    ensures response.Some? && r.Success? ==>
      Annotations(response.value).Success? && AnnotationIndex(Annotations(response.value).value).Success? &&
      Merged(clist, AnnotationIndex(Annotations(response.value).value).value, r.value)
    ensures response.Some? && r.Failure? ==>
      Annotations(response.value).Failure? ||
      AnnotationIndex(Annotations(response.value).value).Failure? ||
      exists i :: 0 <= i < |clist| && Offset(clist[i], AnnotationIndex(Annotations(response.value).value).value).Failure?
  {
    var cDictList := new map<string, Value>[|clist|](i requires 0 <= i < |clist| => clist[i]);
    if response.None? {
      assert cDictList[..] == clist;
      return Success(cDictList[..]);
    }
    var sodaAnnotations := Annotations(response.value);
    if sodaAnnotations.Failure? {
      return Failure(sodaAnnotations.error);
    }
    var built := AnnotationIndex(sodaAnnotations.value);
    if built.Failure? {
      return Failure(built.error);
    }
    var sodaAnnotationDict := built.value;
    for i := 0 to cDictList.Length
      invariant forall j :: 0 <= j < i ==>
        Offset(clist[j], sodaAnnotationDict).Success? && cDictList[j] == Offset(clist[j], sodaAnnotationDict).value
      invariant forall j :: i <= j < cDictList.Length ==> cDictList[j] == clist[j]
    {
      var c := cDictList[i];
      if "conceptID" !in c || !Hashable(c["conceptID"]) {
        return Failure(if "conceptID" !in c then "KeyError" else "TypeError");
      }
      if c["conceptID"] in sodaAnnotationDict {
        var sodaAnnotation := sodaAnnotationDict[c["conceptID"]];
        if "begin" !in sodaAnnotation {
          return Failure("KeyError");
        }
        cDictList[i] := c["begin" := sodaAnnotation["begin"]];
        if "end" !in sodaAnnotation {
          return Failure("KeyError");
        }
        cDictList[i] := cDictList[i]["end" := sodaAnnotation["end"]];
      }
    }
    return Success(cDictList[..]);
  }

  /** Without an `annotations` entry every concept comes back unchanged. */
  lemma NoAnnotationsUnchanged(clist: seq<map<string, Value>>, response: map<string, Value>)
    requires "annotations" !in response
    requires forall i :: 0 <= i < |clist| ==> "conceptID" in clist[i] && Hashable(clist[i]["conceptID"])
    ensures Annotations(response) == Success([]) && AnnotationIndex([]) == Success(map[])
    ensures forall r :: Merged(clist, map[], r) ==> r == clist
    ensures Merged(clist, map[], clist)
  {
  }
}

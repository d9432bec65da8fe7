/** The per-line input and the service URL of the annotation runner
    (`api/hGraphAPI/cm2access/run_annotation.py`). Argument parsing, the
    input file and the calls to the services are not modelled. */
module RunAnnotation {
  import opened Wrappers
  import opened Strings
  import CM2Access
  import QPEAccess

  const SERVICES: seq<string> := ["cm2", "qpe", "qpe-lookup"]

  /** `get_annotator_input(line, args)`: the output prefix and the query of one
      input line. With `ignore_first_col`, the stripped line must split into
      exactly two tab-separated fields, or the unpacking raises `ValueError`. */
  function GetAnnotatorInput(line: string, ignoreFirstCol: bool): (r: Result<(string, string)>)
    ensures !ignoreFirstCol ==> r.Success? && r.value.0 == Strip(line) && r.value.1 == Strip(line)
    ensures ignoreFirstCol ==> (r.Success? <==> CountChar(Strip(line), '\t') == 1)
  {
    if ignoreFirstCol then
      var parts := SplitMax(Strip(line), '\t', 2);
      SplitMaxCount(Strip(line), '\t', 2);
      if |parts| != 2 then Failure("ValueError")
      else
        var metadata := parts[0];
        var query := ReplaceChar(parts[1], '\t', ' ');
        Success((metadata + "\t" + query, query))
    else
      var query := Strip(line);
      Success((query, query))
  }

  /** With the first column kept aside, the prefix is the stripped line itself
      and the query is the text after its one tab, which holds no tab; so the
      `replace('\t', ' ')` never changes anything. */
  lemma FirstColumnInput(line: string)
    requires CountChar(Strip(line), '\t') == 1
    ensures var r := GetAnnotatorInput(line, true);
      r.Success? && r.value.0 == Strip(line) && '\t' !in r.value.1 &&
      exists i :: 0 <= i < |Strip(line)| && Strip(line)[i] == '\t' && r.value.1 == Strip(line)[i + 1..]
    ensures var parts := SplitMax(Strip(line), '\t', 2);
      |parts| == 2 && ReplaceChar(parts[1], '\t', ' ') == parts[1]
  {
    var s := Strip(line);
    var parts := SplitMax(s, '\t', 2);
    assert |parts| == 2 && '\t' !in parts[0] && '\t' !in parts[1] && parts[0] + ['\t'] + parts[1] == s by {
      SplitMaxOneSep(s, '\t');
    }
    assert ReplaceChar(parts[1], '\t', ' ') == parts[1] by {
      ReplaceCharAbsent(parts[1], '\t', ' ');
    }
    var i := |parts[0]|;
    assert s[i] == '\t' && s[i + 1..] == parts[1];
    assert GetAnnotatorInput(line, true) == Success((s, parts[1]));
  }

  /** The URL `process` uses: the given one, or the default of the service. */
  function ServiceUrl(service: string, url: Option<string>): (r: string)
    ensures url.Some? ==> r == url.value
    ensures url.None? && (service == "qpe" || service == "qpe-lookup") ==> r == QPEAccess.DEFAULT_QPE_URL
    ensures url.None? && service != "qpe" && service != "qpe-lookup" ==> r == CM2Access.DEFAULT_CM2_URL
  {
    match url
    case Some(u) => u
    case None => if service in ["qpe", "qpe-lookup"] then QPEAccess.DEFAULT_QPE_URL else CM2Access.DEFAULT_CM2_URL
  }

  /** Of the services the parser accepts, only `cm2` falls back to the CM2 URL. */
  lemma ServiceDefaults()
    ensures forall i :: 0 <= i < |SERVICES| ==>
      (ServiceUrl(SERVICES[i], None) == CM2Access.DEFAULT_CM2_URL <==> SERVICES[i] == "cm2")
  {
    assert |QPEAccess.DEFAULT_QPE_URL| != |CM2Access.DEFAULT_CM2_URL|;
  }
}

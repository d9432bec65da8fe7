/** The text helpers of the Embase abstract miner (`api/EmbaseAPI/EmbaseSearchAPI.py`):
    ngram counting into a shared counter dictionary, keyword and dictionary-word
    tests on ngrams, merging ngrams into a phrase, and the line rule of the
    MedScan dictionary loader. Files, TextBlob and the HTTP search are not modelled:
    ngrams are sequences of words and a dictionary file is its sequence of lines. */
module EmbaseSearch {
  import opened Wrappers
  import opened Strings

  // --------------------------------------------------------- ngram counting

  /** `' '.join(list(t))` */
  function NgramKey(t: seq<string>): string
  {
    JoinWith(t, " ")
  }

  /** `m.get(k, 0)` for a counter. */
  function Count(m: map<string, int>, k: string): int
  {
    if k in m then m[k] else 0
  }

  /** The counter after one more occurrence of `k`. */
  function Bumped(m: map<string, int>, k: string): (r: map<string, int>)
    ensures k in r && r[k] == Count(m, k) + 1
    ensures forall j :: j != k ==> (j in r <==> j in m)
    ensures forall j :: j != k && j in m ==> r[j] == m[j]
  {
    m[k := Count(m, k) + 1]
  }

  /** The counter after counting every ngram, in order. */
  function CountAll(m: map<string, int>, ngrams: seq<seq<string>>): map<string, int>
    decreases |ngrams|
  {
    if ngrams == [] then m else CountAll(Bumped(m, NgramKey(ngrams[0])), ngrams[1..])
  }

  /** How many of the ngrams have key `k`. */
  function Occurrences(ngrams: seq<seq<string>>, k: string): nat
  {
    if ngrams == [] then 0
    else (if NgramKey(ngrams[0]) == k then 1 else 0) + Occurrences(ngrams[1..], k)
  }

  /** Counting a list of ngrams raises each key's count by the number of ngrams
      with that key; keys no ngram has keep their count, and absent ones stay absent. */
  lemma {:induction false} CountAllSpec(m: map<string, int>, ngrams: seq<seq<string>>, k: string)
    ensures Count(CountAll(m, ngrams), k) == Count(m, k) + Occurrences(ngrams, k)
    ensures k in CountAll(m, ngrams) <==> k in m || Occurrences(ngrams, k) > 0
    decreases |ngrams|
  {
    if ngrams != [] {
      CountAllSpec(Bumped(m, NgramKey(ngrams[0])), ngrams[1..], k);
    }
  }

  /** The `counter` dictionary that `count_tuple` and `count_tuples` update in place. */
  class NgramCounter {
    var counts: map<string, int>

    constructor (initial: map<string, int>)
      ensures counts == initial
    {
      counts := initial;
    }

    /** `count_tuple(counter, t)`: a new key starts at 1, a known one goes up by 1. */
    method CountTuple(t: seq<string>)
      modifies this
      ensures counts == Bumped(old(counts), NgramKey(t))
    {
      var tStr := NgramKey(t);
      if tStr in counts {
        var currentCount := counts[tStr];
        counts := counts[tStr := currentCount + 1];
      } else {
        counts := counts[tStr := 1];
      }
    }

    /** `count_tuples(counter, ngrams)` */
    method CountTuples(ngrams: seq<seq<string>>)
      modifies this
      ensures counts == CountAll(old(counts), ngrams)
    {
      for i := 0 to |ngrams|
        invariant CountAll(counts, ngrams[i..]) == CountAll(old(counts), ngrams)
      {
        assert ngrams[i..][1..] == ngrams[i + 1..];
        CountTuple(ngrams[i]);
      }
    }
  }

  // ------------------------------------------------------- keyword matching

  /** `has_substring(ngram, keywords_subs)`: some keyword occurs in the
      lower-cased form of some word. */
  predicate HasSubstring(ngram: seq<string>, keywords: set<string>)
    ensures HasSubstring(ngram, keywords) <==>
      exists w, k, at: nat :: 0 <= w < |ngram| && k in keywords && OccursAt(k, Lower(ngram[w]), at)
  {
    if ngram == [] then false
    else
      (exists k :: k in keywords && IsSubstring(k, Lower(ngram[0]))) ||
      (assert forall w :: 1 <= w < |ngram| ==> ngram[1..][w - 1] == ngram[w];
       HasSubstring(ngram[1..], keywords))
  }

  predicate HasCapital(s: string)
  {
    exists i :: 0 <= i < |s| && 'A' <= s[i] <= 'Z'
  }

  /** Keywords are not lower-cased: a keyword holding a capital letter never matches. */
  lemma CapitalKeywordNeverMatches(ngram: seq<string>, keywords: set<string>)
    requires forall k :: k in keywords ==> HasCapital(k)
    ensures !HasSubstring(ngram, keywords)
  {
    forall w, k, at: nat | 0 <= w < |ngram| && k in keywords
      ensures !OccursAt(k, Lower(ngram[w]), at)
    {
      var i :| 0 <= i < |k| && 'A' <= k[i] <= 'Z';
    }
  }

  /** `[x.lower() for x in ngram]` */
  function LowerWords(ngram: seq<string>): (r: seq<string>)
    ensures |r| == |ngram| && forall i :: 0 <= i < |ngram| ==> r[i] == Lower(ngram[i])
  {
    seq(|ngram|, i requires 0 <= i < |ngram| => Lower(ngram[i]))
  }

  /** `has_dic_word(ngram, medscan_dic)`: the dictionary restricted to the
      aliases that equal a lower-cased word of the ngram. */
  function HasDicWord(ngram: seq<string>, dic: map<string, string>): (r: map<string, string>)
    ensures forall a :: a in r <==> a in dic && exists i :: 0 <= i < |ngram| && Lower(ngram[i]) == a
    ensures forall a :: a in r ==> r[a] == dic[a]
  {
    var lower := LowerWords(ngram);
    map a | a in dic && a in lower :: dic[a]
  }

  // ---------------------------------------------------------- ngram phrases

  /** The first word of every ngram. */
  function FirstWords(ngrams: seq<seq<string>>): (r: seq<string>)
    requires forall i :: 0 <= i < |ngrams| ==> ngrams[i] != []
    ensures |r| == |ngrams| && forall i :: 0 <= i < |ngrams| ==> r[i] == ngrams[i][0]
  {
    seq(|ngrams|, i requires 0 <= i < |ngrams| => ngrams[i][0])
  }

  /** `merge_ngrams(ngramlist)`: the first words joined by single spaces; an
      empty ngram has no first word (`IndexError`). */
  method MergeNgrams(ngrams: seq<seq<string>>) returns (r: Result<string>)
    ensures r.Success? <==> forall i :: 0 <= i < |ngrams| ==> ngrams[i] != []
    ensures r.Success? ==> r.value == JoinWith(FirstWords(ngrams), " ")
  {
    var phrase: seq<string> := [];
    for i := 0 to |ngrams|
      invariant forall j :: 0 <= j < i ==> ngrams[j] != []
      invariant |phrase| == i && forall j :: 0 <= j < i ==> phrase[j] == ngrams[j][0]
    {
      if ngrams[i] == [] {
        return Failure("IndexError");
      }
      phrase := phrase + [ngrams[i][0]];
    }
    assert phrase == FirstWords(ngrams);
    return Success(JoinWith(phrase, " "));
  }

  /** Splitting a merged phrase on spaces gives the first words back when none holds a space. */
  lemma MergeNgramsSplit(ngrams: seq<seq<string>>)
    requires |ngrams| >= 1
    requires forall i :: 0 <= i < |ngrams| ==> ngrams[i] != [] && ' ' !in ngrams[i][0]
    ensures Split(JoinWith(FirstWords(ngrams), " "), ' ') == FirstWords(ngrams)
  {
    SplitJoin(FirstWords(ngrams), ' ');
  }

  /** `[n for n in ngramlist if has_substring(n, keywords_subs)]` */
  function SubstringNgrams(ngrams: seq<seq<string>>, keywords: set<string>): (r: seq<seq<string>>)
    ensures |r| <= |ngrams|
    ensures forall i :: 0 <= i < |r| ==> HasSubstring(r[i], keywords)
    ensures forall n :: n in r <==> n in ngrams && HasSubstring(n, keywords)
  {
    if ngrams == [] then []
    else if HasSubstring(ngrams[0], keywords) then [ngrams[0]] + SubstringNgrams(ngrams[1..], keywords)
    else SubstringNgrams(ngrams[1..], keywords)
  }

  /** The filter keeps the input's order: it distributes over concatenation. */
  lemma {:induction false} SubstringNgramsConcat(a: seq<seq<string>>, b: seq<seq<string>>, keywords: set<string>)
    ensures SubstringNgrams(a + b, keywords) == SubstringNgrams(a, keywords) + SubstringNgrams(b, keywords)
  {
    if a == [] {
      assert a + b == b;
    } else {
      assert (a + b)[1..] == a[1..] + b;
      SubstringNgramsConcat(a[1..], b, keywords);
    }
  }

  /** `mention_substrings(ngramlist, keywords_subs)` */
  method MentionSubstrings(ngrams: seq<seq<string>>, keywords: set<string>) returns (r: Result<string>)
    ensures var kept := SubstringNgrams(ngrams, keywords);
      r.Success? <==> forall i :: 0 <= i < |kept| ==> kept[i] != []
    ensures r.Success? ==> r.value == JoinWith(FirstWords(SubstringNgrams(ngrams, keywords)), " ")
  {
    var annotationNgrams := SubstringNgrams(ngrams, keywords);
    r := MergeNgrams(annotationNgrams);
  }

  /** `mention_dic_word(ngramlist, medscan_dic)` before its final `','.join`:
      the set of dictionary aliases that are a lower-cased word of some ngram. */
  method MentionDicWords(ngrams: seq<seq<string>>, dic: map<string, string>) returns (dicWords: set<string>)
    ensures forall a :: a in dicWords <==>
      a in dic && exists j, w :: 0 <= j < |ngrams| && 0 <= w < |ngrams[j]| && Lower(ngrams[j][w]) == a
  {
    dicWords := {};
    for i := 0 to |ngrams|
      invariant forall a :: a in dicWords <==>
        a in dic && exists j, w :: 0 <= j < i && 0 <= w < |ngrams[j]| && Lower(ngrams[j][w]) == a
    {
      var foundDicWord := HasDicWord(ngrams[i], dic);
      if foundDicWord != map[] {
        dicWords := dicWords + foundDicWord.Keys;
      }
    }
  }

  // -------------------------------------------------------- load_medscan_dic

  predicate AllDigits(s: string)
  {
    forall i :: 0 <= i < |s| ==> '0' <= s[i] <= '9'
  }

  /** The value of a string of decimal digits. */
  function DigitsValue(s: string): nat
    requires AllDigits(s)
  {
    if s == [] then 0 else 10 * DigitsValue(s[..|s| - 1]) + (s[|s| - 1] as int - '0' as int)
  }

  /** `int(s)` for a string argument: surrounding whitespace, an optional sign
      and at least one decimal digit; anything else raises `ValueError`. */
  function ParseInt(s: string): (r: Option<int>)
    ensures s != [] && AllDigits(s) ==> r == Some(DigitsValue(s))
    ensures r.Some? ==> Strip(s) != []
    ensures r.Some? && Strip(s)[0] != '-' ==> r.value >= 0
    ensures r.Some? && Strip(s)[0] == '-' ==> r.value <= 0
    ensures var t := Strip(s);
      r.Some? <==> t != [] && (AllDigits(t) || ((t[0] == '+' || t[0] == '-') && |t| > 1 && AllDigits(t[1..])))
  {
    assert s != [] && AllDigits(s) ==> Strip(s) == s by {
      if s != [] && AllDigits(s) {
        DigitNotSpace(s[0]);
        DigitNotSpace(s[|s| - 1]);
        StripUnchanged(s);
      }
    }
    var t := Strip(s);
    var negative := t != [] && t[0] == '-';
    var digits := if t != [] && (t[0] == '-' || t[0] == '+') then t[1..] else t;
    if digits == [] || !AllDigits(digits) then None
    else
      var value: int := DigitsValue(digits);
      if negative then Some(-value) else Some(value)
  }

  /** `int(s) == int(s.strip())`: surrounding whitespace does not matter. */
  lemma ParseIntStrip(s: string)
    ensures ParseInt(s) == ParseInt(Strip(s))
  {
    StripIdempotent(s);
  }

  /** A sign followed by digits is its own `strip()`. */
  lemma StripSignedNumeral(sign: char, d: string)
    requires (sign == '-' || sign == '+') && d != [] && AllDigits(d)
    ensures Strip([sign] + d) == [sign] + d
  {
    var t := [sign] + d;
    assert t[|t| - 1] == d[|d| - 1];
    DigitNotSpace(d[|d| - 1]);
    StripUnchanged(t);
  }

  /** A sign followed by digits: the value of the digits, negated after `-`. */
  lemma ParseIntSignedNumeral(sign: char, d: string)
    requires (sign == '-' || sign == '+') && d != [] && AllDigits(d)
    ensures ParseInt([sign] + d) == Some(if sign == '-' then -(DigitsValue(d) as int) else DigitsValue(d))
  {
    var t := [sign] + d;
    assert t[0] == sign && t[1..] == d;
    StripSignedNumeral(sign, d);
  }

  /** `int('-' + d) == -int(d)` and `int('+' + d) == int(d)` for a digit string `d`. */
  lemma ParseIntSigned(d: string)
    requires d != [] && AllDigits(d)
    ensures ParseInt("-" + d) == Some(-(DigitsValue(d) as int))
    ensures ParseInt("+" + d) == Some(DigitsValue(d))
  {
    ParseIntSignedNumeral('-', d);
    ParseIntSignedNumeral('+', d);
  }

  /** `str(n)` for a natural number. */
  function ShowNat(n: nat): (s: string)
    ensures s != [] && AllDigits(s)
  {
    var d := [('0' as int + n % 10) as char];
    if n < 10 then d else ShowNat(n / 10) + d
  }

  lemma {:induction false} DigitsValueShow(n: nat)
    ensures DigitsValue(ShowNat(n)) == n
  {
    var s := ShowNat(n);
    if n >= 10 {
      DigitsValueShow(n / 10);
      assert s[..|s| - 1] == ShowNat(n / 10);
    }
  }

  lemma DigitNotSpace(c: char)
    requires '0' <= c <= '9'
    ensures !IsSpace(c)
  {
  }

  /** `int(str(n)) == n` */
  lemma ParseIntShow(n: nat)
    ensures ParseInt(ShowNat(n)) == Some(n)
  {
    var s := ShowNat(n);
    DigitNotSpace(s[0]);
    DigitNotSpace(s[|s| - 1]);
    StripUnchanged(s);
    assert s[0] != '-' && s[0] != '+';
    DigitsValueShow(n);
  }

  /** The entry one dictionary line contributes, if any. The columns are
      `msid`, alias and flag; with an id range, a line is kept only when its
      `msid` lies in `[range, range + 999999]`. */
  function MedscanRow(line: string, range: Option<int>): (r: Result<Option<(string, string)>>)
    ensures var row := Split(line, '\t');
      r.Success? && r.value.Some? ==>
        |row| >= 3 && row[2] != [] && r.value.value.1 == row[0] &&
        (row[2][0] == 'l' ==> r.value.value.0 == row[1]) &&
        (row[2][0] != 'l' ==> r.value.value.0 == Lower(row[1]))
    ensures range.None? ==> (r.Success? ==> r.value.Some?)
    ensures range.Some? && r.Success? ==>
      var id := ParseInt(Split(line, '\t')[0]);
      id.Some? && (r.value.Some? <==> range.value <= id.value <= range.value + 999999)
    ensures var row := Split(line, '\t');
      var id := ParseInt(row[0]);
      var kept := range.None? || (id.Some? && range.value <= id.value <= range.value + 999999);
      (r == Failure("ValueError") <==> range.Some? && id.None?) &&
      (r == Failure("IndexError") <==> kept && (|row| < 3 || row[2] == [])) &&
      (r.Failure? ==> r.error == "ValueError" || r.error == "IndexError")
  {
    var row := Split(line, '\t');
    var msid := row[0];
    var kept := match range
      case None => Success(true)
      case Some(lo) =>
        match ParseInt(msid)
        case None => Failure("ValueError")
        case Some(id) => Success(lo <= id <= lo + 999999);
    if kept.Failure? then Failure(kept.error)
    else if !kept.value then Success(None)
    else if |row| < 3 || row[2] == [] then Failure("IndexError")
    else
      var flag := row[2];
      var alias := if flag[0] == 'l' then row[1] else Lower(row[1]);
      Success(Some((alias, msid)))
  }

  /** `m` after the lines up to the end of the file, which `readline` signals
      with an empty string. */
  function LoadFrom(m: map<string, string>, lines: seq<string>, range: Option<int>): Result<map<string, string>>
    decreases |lines|
  {
    if lines == [] || lines[0] == "" then Success(m)
    else
      var row := MedscanRow(lines[0], range);
      if row.Failure? then Failure(row.error) else LoadFrom(AddEntry(m, row.value), lines[1..], range)
  }

  /** `to_return[alias] = msid` for a line that yields an entry. */
  function AddEntry(m: map<string, string>, entry: Option<(string, string)>): map<string, string>
  {
    if entry.Some? then m[entry.value.0 := entry.value.1] else m
  }

  /** Line `i` is read before the end of the file. */
  predicate Read(lines: seq<string>, i: int)
  {
    0 <= i < |lines| && forall j :: 0 <= j <= i ==> lines[j] != ""
  }

  /** Line `i` yields an entry for `alias`. */
  predicate Yields(lines: seq<string>, i: int, range: Option<int>, alias: string)
    requires 0 <= i < |lines|
  {
    var row := MedscanRow(lines[i], range);
    row.Success? && row.value.Some? && row.value.value.0 == alias
  }

  lemma ReadTail(lines: seq<string>, i: int)
    requires lines != [] && lines[0] != "" && i >= 0
    ensures Read(lines, i + 1) <==> Read(lines[1..], i)
  {
    if Read(lines[1..], i) {
      forall j | 0 <= j <= i + 1
        ensures lines[j] != ""
      {
        if j > 0 {
          assert lines[j] == lines[1..][j - 1];
        }
      }
    }
  }

  /** An alias no read line yields keeps its entry of `m`, or stays absent. */
  lemma {:induction false} LoadKeeps(m: map<string, string>, lines: seq<string>, range: Option<int>, alias: string)
    requires LoadFrom(m, lines, range).Success?
    requires forall i :: Read(lines, i) ==> !Yields(lines, i, range, alias)
    ensures var r := LoadFrom(m, lines, range).value;
      (alias in r <==> alias in m) && (alias in m ==> r[alias] == m[alias])
    decreases |lines|
  {
    if lines != [] && lines[0] != "" {
      assert Read(lines, 0);
      forall i | Read(lines[1..], i)
        ensures !Yields(lines[1..], i, range, alias)
      {
        ReadTail(lines, i);
        assert lines[1..][i] == lines[i + 1];
      }
      LoadKeeps(AddEntry(m, MedscanRow(lines[0], range).value), lines[1..], range, alias);
    }
  }

  /** The last read line that yields an alias decides its `msid`: a later
      line overwrites an earlier one. */
  lemma {:induction false} LoadLast(m: map<string, string>, lines: seq<string>, range: Option<int>, i: nat, alias: string)
    requires LoadFrom(m, lines, range).Success?
    requires Read(lines, i) && Yields(lines, i, range, alias)
    requires forall j :: i < j && Read(lines, j) ==> !Yields(lines, j, range, alias)
    ensures var r := LoadFrom(m, lines, range).value;
      alias in r && r[alias] == MedscanRow(lines[i], range).value.value.1
    decreases |lines|
  {
    assert Read(lines, 0);
    var tail := lines[1..];
    if i == 0 {
      var entry := MedscanRow(lines[0], range).value.value;
      forall j | Read(tail, j)
        ensures !Yields(tail, j, range, alias)
      {
        ReadTail(lines, j);
        assert tail[j] == lines[j + 1];
      }
      LoadKeeps(m[entry.0 := entry.1], tail, range, alias);
    } else {
      ReadTail(lines, i - 1);
      assert tail[i - 1] == lines[i];
      forall j | i - 1 < j && Read(tail, j)
        ensures !Yields(tail, j, range, alias)
      {
        ReadTail(lines, j);
        assert tail[j] == lines[j + 1];
      }
      LoadLast(AddEntry(m, MedscanRow(lines[0], range).value), tail, range, i - 1, alias);
    }
  }

  /** One more line read from position `pos`. */
  lemma LoadStep(m: map<string, string>, lines: seq<string>, pos: nat, range: Option<int>, row: Result<Option<(string, string)>>)
    requires pos < |lines| && lines[pos] != ""
    requires row == MedscanRow(lines[pos], range)
    ensures row.Failure? ==> LoadFrom(m, lines[pos..], range) == Failure(row.error)
    ensures row.Success? ==>
      LoadFrom(m, lines[pos..], range) == LoadFrom(AddEntry(m, row.value), lines[pos + 1..], range)
  {
    assert lines[pos..][0] == lines[pos] && lines[pos..][1..] == lines[pos + 1..];
  }

  /** Reading stops at the end of the file. */
  lemma LoadStop(m: map<string, string>, lines: seq<string>, pos: nat, range: Option<int>)
    requires pos <= |lines| && (pos == |lines| || lines[pos] == "")
    ensures LoadFrom(m, lines[pos..], range) == Success(m)
  {
    if pos < |lines| {
      assert lines[pos..][0] == lines[pos];
    }
  }

  /** The `while line:` loop of `load_medscan_dic`, from line `pos0` on, with
      `m0` as the dictionary so far; `range` is the id range of the pass, if any. */
  method ReadLines(lines: seq<string>, pos0: nat, m0: map<string, string>, range: Option<int>)
      returns (r: Result<map<string, string>>, pos: nat)
    requires pos0 <= |lines|
    ensures r == LoadFrom(m0, lines[pos0..], range)
    ensures pos0 <= pos <= |lines|
    ensures r.Success? ==> pos == |lines| || lines[pos] == ""
  {
    var toReturn := m0;
    pos := pos0;
    ghost var want := LoadFrom(m0, lines[pos0..], range);
    while pos < |lines| && lines[pos] != ""
      invariant pos0 <= pos <= |lines|
      invariant LoadFrom(toReturn, lines[pos..], range) == want
      decreases |lines| - pos
    {
      var row := MedscanRow(lines[pos], range);
      LoadStep(toReturn, lines, pos, range, row);
      if row.Failure? {
        return Failure(row.error), pos;
      }
      if row.value.Some? {
        toReturn := toReturn[row.value.value.0 := row.value.value.1];
      }
      pos := pos + 1;
    }
    LoadStop(toReturn, lines, pos, range);
    r := Success(toReturn);
  }

  /** `load_medscan_dic(dic_fname, id_ranges)` over the lines of the file.
      Every range reads on from where the previous one stopped, and the first one
      reads to the end of the file, so only the first range selects entries. */
  method LoadMedscanDic(lines: seq<string>, idRanges: seq<int>) returns (r: Result<map<string, string>>)
    ensures r == LoadFrom(map[], lines, if idRanges == [] then None else Some(idRanges[0]))
  {
    var toReturn: map<string, string> := map[];
    var pos: nat := 0;
    if idRanges != [] {
      ghost var want := LoadFrom(map[], lines, Some(idRanges[0]));
      for k := 0 to |idRanges|
        invariant 0 <= pos <= |lines|
        invariant k == 0 ==> pos == 0 && toReturn == map[]
        invariant k > 0 ==> (pos == |lines| || lines[pos] == "") && want == Success(toReturn)
      {
        var pass;
        pass, pos := ReadLines(lines, pos, toReturn, Some(idRanges[k]));
        if pass.Failure? {
          return pass;
        }
        toReturn := pass.value;
      }
      r := Success(toReturn);
    } else {
      r, pos := ReadLines(lines, 0, map[], None);
    }
  }
}

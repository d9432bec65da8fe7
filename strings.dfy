/** Python string operations the rest of the model relies on: `sep.join`,
    `str.split(sep)`, `str.split(sep, maxsplit)`, `str.split()`, `str.strip()`,
    `str.lower()` and the `in` substring test. Strings are `seq<char>`. */
module Strings {

  // ---------------------------------------------------------------- join

  /** `sep.join(parts)` */
  function JoinWith(parts: seq<string>, sep: string): string
  {
    if |parts| == 0 then ""
    else if |parts| == 1 then parts[0]
    else parts[0] + sep + JoinWith(parts[1..], sep)
  }

  lemma JoinWithCons(p: string, tail: seq<string>, sep: string)
    requires |tail| > 0
    ensures JoinWith([p] + tail, sep) == p + sep + JoinWith(tail, sep)
  {
    assert ([p] + tail)[1..] == tail;
  }

  lemma JoinWithPrefixHead(a: string, x: string, tail: seq<string>, sep: string)
    ensures JoinWith([a + x] + tail, sep) == a + JoinWith([x] + tail, sep)
  {
    assert ([a + x] + tail)[1..] == tail;
    assert ([x] + tail)[1..] == tail;
  }

  // --------------------------------------------------------------- split

  /** `s.split(sep)` for a one-character separator: every occurrence of
      `sep` cuts, empty pieces are kept, and the result is never empty. */
  function Split(s: string, sep: char): (r: seq<string>)
    ensures |r| >= 1
    ensures forall i :: 0 <= i < |r| ==> sep !in r[i]
  {
    if s == [] then [""]
    else
      var rest := Split(s[1..], sep);
      if s[0] == sep then [""] + rest
      else [[s[0]] + rest[0]] + rest[1..]
  }

  lemma SplitNoSep(s: string, sep: char)
    requires sep !in s
    ensures Split(s, sep) == [s]
  {
    if s != [] {
      SplitNoSep(s[1..], sep);
      assert [s[0]] + s[1..] == s;
    }
  }

  lemma SplitAfterFirst(a: string, sep: char, b: string)
    requires sep !in a
    ensures Split(a + [sep] + b, sep) == [a] + Split(b, sep)
  {
    if a == [] {
      assert a + [sep] + b == [sep] + b;
      assert ([sep] + b)[1..] == b;
    } else {
      var s := a + [sep] + b;
      assert s[1..] == a[1..] + [sep] + b;
      SplitAfterFirst(a[1..], sep, b);
      assert [a[0]] + a[1..] == a;
    }
  }

  /** Joining the pieces of a split with the separator gives the string back. */
  lemma {:induction false} JoinSplit(s: string, sep: char)
    ensures JoinWith(Split(s, sep), [sep]) == s
  {
    if s != [] {
      var rest := Split(s[1..], sep);
      JoinSplit(s[1..], sep);
      if s[0] == sep {
        JoinWithCons("", rest, [sep]);
        assert [s[0]] + s[1..] == s;
      } else {
        JoinWithPrefixHead([s[0]], rest[0], rest[1..], [sep]);
        assert [rest[0]] + rest[1..] == rest;
        assert [s[0]] + s[1..] == s;
      }
    }
  }

  /** Splitting a join gives the pieces back when no piece holds the separator. */
  lemma {:induction false} SplitJoin(parts: seq<string>, sep: char)
    requires |parts| >= 1
    requires forall i :: 0 <= i < |parts| ==> sep !in parts[i]
    ensures Split(JoinWith(parts, [sep]), sep) == parts
  {
    if |parts| == 1 {
      SplitNoSep(parts[0], sep);
    } else {
      SplitJoin(parts[1..], sep);
      SplitAfterFirst(parts[0], sep, JoinWith(parts[1..], [sep]));
      assert [parts[0]] + parts[1..] == parts;
    }
  }

  // ------------------------------------------------- split with maxsplit

  function CountChar(s: string, c: char): nat
  {
    if s == [] then 0 else (if s[0] == c then 1 else 0) + CountChar(s[1..], c)
  }

  /** Index of the first occurrence of `c` in `s`. */
  function FirstIndex(s: string, c: char): (i: nat)
    requires c in s
    ensures i < |s| && s[i] == c && c !in s[..i]
  {
    if s[0] == c then 0 else 1 + FirstIndex(s[1..], c)
  }

  lemma CountCharSplit(s: string, c: char)
    requires c in s
    ensures CountChar(s, c) == CountChar(s[..FirstIndex(s, c)], c) + 1 + CountChar(s[FirstIndex(s, c) + 1..], c)
  {
    if s[0] != c {
      var t, i := s[1..], FirstIndex(s, c);
      assert FirstIndex(t, c) == i - 1;
      assert CountChar(s, c) == CountChar(t, c);
      assert CountChar(s[..i], c) == CountChar(t[..i - 1], c) by {
        assert s[..i][1..] == t[..i - 1];
      }
      assert t[i..] == s[i + 1..];
      CountCharSplit(t, c);
    }
  }

  lemma CountCharZero(s: string, c: char)
    ensures CountChar(s, c) == 0 <==> c !in s
  {
    if s != [] {
      CountCharZero(s[1..], c);
    }
  }

  /** `s.split(sep, maxsplit)`: at most `maxsplit` cuts, left to right; the tail is kept whole. */
  function SplitMax(s: string, sep: char, maxsplit: nat): (r: seq<string>)
    ensures |r| >= 1
  {
    if maxsplit == 0 || sep !in s then [s]
    else
      var i := FirstIndex(s, sep);
      [s[..i]] + SplitMax(s[i + 1..], sep, maxsplit - 1)
  }

  /** The separators of `s` are the first one and those after it. */
  lemma CountCharAfterFirst(s: string, c: char)
    requires c in s
    ensures CountChar(s, c) == 1 + CountChar(s[FirstIndex(s, c) + 1..], c)
  {
    CountCharSplit(s, c);
    CountCharZero(s[..FirstIndex(s, c)], c);
  }

  /** One cut at the first separator takes one separator and adds one piece. */
  lemma SplitMaxHead(s: string, sep: char, maxsplit: nat)
    requires maxsplit != 0 && sep in s
    ensures var rest := s[FirstIndex(s, sep) + 1..];
      CountChar(s, sep) == 1 + CountChar(rest, sep) &&
      |SplitMax(s, sep, maxsplit)| == 1 + |SplitMax(rest, sep, maxsplit - 1)|
  {
    CountCharAfterFirst(s, sep);
  }

  /** The number of pieces is one more than the number of cuts, capped at maxsplit + 1. */
  lemma {:induction false} SplitMaxCount(s: string, sep: char, maxsplit: nat)
    ensures |SplitMax(s, sep, maxsplit)| == if CountChar(s, sep) < maxsplit then CountChar(s, sep) + 1 else maxsplit + 1
  {
    if maxsplit == 0 || sep !in s {
      assert maxsplit == 0 || CountChar(s, sep) == 0 by {
        CountCharZero(s, sep);
      }
      assert |SplitMax(s, sep, maxsplit)| == 1;
    } else {
      var rest := s[FirstIndex(s, sep) + 1..];
      var c, cr := CountChar(s, sep), CountChar(rest, sep);
      var n, nr := |SplitMax(s, sep, maxsplit)|, |SplitMax(rest, sep, maxsplit - 1)|;
      assert c == cr + 1 && n == nr + 1 by {
        SplitMaxHead(s, sep, maxsplit);
      }
      assert nr == if cr < maxsplit - 1 then cr + 1 else maxsplit by {
        SplitMaxCount(rest, sep, maxsplit - 1);
      }
      CappedCount(c, cr, n, nr, maxsplit);
    }
  }

  lemma CappedCount(c: int, cr: int, n: int, nr: int, m: int)
    requires m > 0 && c == cr + 1 && n == nr + 1
    requires nr == if cr < m - 1 then cr + 1 else m
    ensures n == if c < m then c + 1 else m + 1
  {
  }

  /** With exactly one separator, `split(sep, 2)` gives two pieces, neither containing it. */
  lemma SplitMaxOneSep(s: string, sep: char)
    requires CountChar(s, sep) == 1
    ensures var r := SplitMax(s, sep, 2);
      |r| == 2 && sep !in r[0] && sep !in r[1] && r[0] + [sep] + r[1] == s
  {
    CountCharZero(s, sep);
    var i := FirstIndex(s, sep);
    CountCharSplit(s, sep);
    CountCharZero(s[i + 1..], sep);
    assert s[..i] + [sep] + s[i + 1..] == s;
  }

  /** `s.replace(old, new)` for single characters. */
  function ReplaceChar(s: string, from: char, to: char): (r: string)
    ensures |r| == |s|
    ensures forall i :: 0 <= i < |s| ==> r[i] == if s[i] == from then to else s[i]
  {
    seq(|s|, i requires 0 <= i < |s| => if s[i] == from then to else s[i])
  }

  /** Replacing a character that does not occur changes nothing. */
  lemma ReplaceCharAbsent(s: string, from: char, to: char)
    requires from !in s
    ensures ReplaceChar(s, from, to) == s
  {
    var r := ReplaceChar(s, from, to);
    forall i | 0 <= i < |s| ensures r[i] == s[i] {
      assert s[i] != from;
    }
  }

  // ----------------------------------------------------------- whitespace

  /** Python's `str.isspace()` for one character. */
  predicate IsSpace(c: char)
  {
    c == ' ' || ('\t' <= c <= '\r') || ('\U{1c}' <= c <= '\U{1f}') ||
    c == '\U{85}' || c == '\U{a0}' || c == '\U{1680}' ||
    ('\U{2000}' <= c <= '\U{200a}') || c == '\U{2028}' || c == '\U{2029}' ||
    c == '\U{202f}' || c == '\U{205f}' || c == '\U{3000}'
  }

  predicate NoSpace(s: string)
  {
    forall i :: 0 <= i < |s| ==> !IsSpace(s[i])
  }

  function LStrip(s: string): (r: string)
    ensures |r| <= |s| && r == s[|s| - |r|..]
    ensures r == [] || !IsSpace(r[0])
  {
    if s == [] || !IsSpace(s[0]) then s else LStrip(s[1..])
  }

  function RStrip(s: string): (r: string)
    ensures |r| <= |s| && r == s[..|r|]
    ensures r == [] || !IsSpace(r[|r| - 1])
  {
    if s == [] || !IsSpace(s[|s| - 1]) then s else RStrip(s[..|s| - 1])
  }

  /** `lstrip()` removes whitespace only. */
  lemma {:induction false} LStripSpaces(s: string)
    ensures forall i :: 0 <= i < |s| - |LStrip(s)| ==> IsSpace(s[i])
    decreases |s|
  {
    if s != [] && IsSpace(s[0]) {
      LStripSpaces(s[1..]);
      forall i | 1 <= i < |s| - |LStrip(s)| ensures IsSpace(s[i]) {
        assert s[i] == s[1..][i - 1];
      }
    }
  }

  /** `rstrip()` removes whitespace only. */
  lemma {:induction false} RStripSpaces(s: string)
    ensures forall i :: |RStrip(s)| <= i < |s| ==> IsSpace(s[i])
    decreases |s|
  {
    if s != [] && IsSpace(s[|s| - 1]) {
      RStripSpaces(s[..|s| - 1]);
      forall i | |RStrip(s)| <= i < |s| - 1 ensures IsSpace(s[i]) {
        assert s[i] == s[..|s| - 1][i];
      }
    }
  }

  /** `s.strip()` */
  function Strip(s: string): (r: string)
  {
    RStrip(LStrip(s))
  }

  /** Text that neither starts nor ends with whitespace is its own `strip()`. */
  lemma StripUnchanged(s: string)
    requires s == [] || (!IsSpace(s[0]) && !IsSpace(s[|s| - 1]))
    ensures Strip(s) == s
  {
    assert LStrip(s) == s;
  }

  /** `strip()` removes only whitespace, from both ends: the result is the
      segment of `s` between a whitespace prefix and a whitespace suffix. */
  lemma StripShape(s: string)
    ensures var r, a := Strip(s), |s| - |LStrip(s)|;
      a + |r| <= |s| && r == s[a..a + |r|] &&
      (r == [] || (!IsSpace(r[0]) && !IsSpace(r[|r| - 1]))) &&
      (forall i :: 0 <= i < a ==> IsSpace(s[i])) &&
      (forall i :: a + |r| <= i < |s| ==> IsSpace(s[i]))
  {
    var t := LStrip(s);
    var r := RStrip(t);
    var a := |s| - |t|;
    LStripSpaces(s);
    RStripSpaces(t);
    assert t == s[a..];
    assert r == t[..|r|];
    forall i | a + |r| <= i < |s| ensures IsSpace(s[i]) {
      assert s[i] == t[i - a];
    }
  }

  /** The longest prefix of `s` without whitespace. */
  function WordPrefix(s: string): (w: string)
    ensures |w| <= |s| && w == s[..|w|] && NoSpace(w)
    ensures |w| == |s| || IsSpace(s[|w|])
  {
    if s == [] || IsSpace(s[0]) then [] else [s[0]] + WordPrefix(s[1..])
  }

  /** `s.split()` with no argument: runs of whitespace separate the pieces. */
  function WsSplit(s: string): (r: seq<string>)
    decreases |s|
  {
    var t := LStrip(s);
    if t == [] then []
    else
      var w := WordPrefix(t);
      assert |w| > 0;
      [w] + WsSplit(t[|w|..])
  }

  lemma WsSplitUnfold(s: string)
    requires LStrip(s) != []
    ensures var t := LStrip(s); var w := WordPrefix(t);
      WsSplit(s) == [w] + WsSplit(t[|w|..])
  {
  }

  /** What follows the first word of `s` once leading whitespace is gone. */
  function AfterFirstWord(s: string): (r: string)
    ensures |r| <= |s| && (LStrip(s) != [] ==> |r| < |s|)
  {
    var t := LStrip(s);
    t[|WordPrefix(t)|..]
  }

  /** The first piece of `s.split()` is the first word after the leading
      whitespace, and the later pieces are the split of what follows it. */
  lemma WsSplitIndex(s: string, i: nat)
    requires i < |WsSplit(s)|
    ensures LStrip(s) != [] && |WordPrefix(LStrip(s))| > 0
    ensures i == 0 ==> WsSplit(s)[i] == WordPrefix(LStrip(s))
    ensures i > 0 ==> i - 1 < |WsSplit(AfterFirstWord(s))| && WsSplit(s)[i] == WsSplit(AfterFirstWord(s))[i - 1]
  {
  }

  /** The piece at index `i` of `s.split()` is non-empty and holds no
      whitespace. */
  lemma {:induction false} WsSplitPiece(s: string, i: nat)
    requires i < |WsSplit(s)|
    ensures WsSplit(s)[i] != [] && NoSpace(WsSplit(s)[i])
    decreases |s|
  {
    WsSplitIndex(s, i);
    if i > 0 {
      WsSplitPiece(AfterFirstWord(s), i - 1);
    }
  }

  /** No piece of `s.split()` is empty or holds whitespace. */
  lemma WsSplitPieces(s: string)
    ensures forall i :: 0 <= i < |WsSplit(s)| ==> WsSplit(s)[i] != [] && NoSpace(WsSplit(s)[i])
  {
    forall i | 0 <= i < |WsSplit(s)|
      ensures WsSplit(s)[i] != [] && NoSpace(WsSplit(s)[i])
    {
      WsSplitPiece(s, i);
    }
  }

  lemma WordPrefixOfJoin(w: string, rest: string)
    requires NoSpace(w)
    requires rest == [] || IsSpace(rest[0])
    ensures WordPrefix(w + rest) == w
  {
    if w != [] {
      assert (w + rest)[1..] == w[1..] + rest;
      WordPrefixOfJoin(w[1..], rest);
    }
  }

  /** `split()` finds no piece exactly when `s` is all whitespace. */
  lemma WsSplitEmpty(s: string)
    ensures WsSplit(s) == [] <==> forall i :: 0 <= i < |s| ==> IsSpace(s[i])
  {
    LStripSpaces(s);
  }

  lemma LStripIdempotent(s: string)
    ensures LStrip(LStrip(s)) == LStrip(s)
  {
  }

  /** `s.strip().strip() == s.strip()` */
  lemma StripIdempotent(s: string)
    ensures Strip(Strip(s)) == Strip(s)
  {
    StripShape(s);
    StripUnchanged(Strip(s));
  }

  /** Leading whitespace does not change `split()`. */
  lemma WsSplitLStrip(s: string)
    ensures WsSplit(LStrip(s)) == WsSplit(s)
  {
    LStripIdempotent(s);
  }

  /** A word followed by whitespace is the first piece, and `split()` goes on
      after it. */
  lemma WsSplitWordSpace(w: string, rest: string)
    requires w != [] && NoSpace(w)
    requires rest != [] && IsSpace(rest[0])
    ensures WsSplit(w + rest) == [w] + WsSplit(rest)
  {
    var s := w + rest;
    assert s[0] == w[0];
    assert LStrip(s) == s;
    WordPrefixOfJoin(w, rest);
    assert s[|w|..] == rest;
  }

  lemma WsSplitLeadingSpace(x: string)
    ensures WsSplit(" " + x) == WsSplit(x)
  {
    assert (" " + x)[1..] == x;
    assert LStrip(" " + x) == LStrip(x);
  }

  lemma WsSplitWordFirst(w: string, rest: string)
    requires w != [] && NoSpace(w)
    ensures WsSplit(w + " " + rest) == [w] + WsSplit(" " + rest)
  {
    var s := w + " " + rest;
    assert s == w + (" " + rest);
    assert !IsSpace(s[0]);
    assert LStrip(s) == s;
    WordPrefixOfJoin(w, " " + rest);
    assert s[|w|..] == " " + rest;
  }

  lemma WsSplitSingle(w: string)
    requires w != [] && NoSpace(w)
    ensures WsSplit(w) == [w]
  {
    WordPrefixOfJoin(w, []);
    assert w + [] == w;
    assert !IsSpace(w[0]);
    assert LStrip(w) == w;
    assert w[|w|..] == [];
    assert LStrip([]) == [];
  }

  predicate IsWord(w: string)
  {
    w != [] && NoSpace(w)
  }

  lemma WsSplitJoinStep(words: seq<string>)
    requires |words| > 1 && IsWord(words[0])
    requires WsSplit(JoinWith(words[1..], " ")) == words[1..]
    ensures WsSplit(JoinWith(words, " ")) == words
  {
    var w, tail := words[0], words[1..];
    var rest := JoinWith(tail, " ");
    assert [w] + tail == words;
    JoinWithCons(w, tail, " ");
    WsSplitWordFirst(w, rest);
    WsSplitLeadingSpace(rest);
  }

  /** Splitting words joined by single spaces gives the words back. */
  lemma {:induction false} WsSplitJoin(words: seq<string>)
    requires forall i :: 0 <= i < |words| ==> IsWord(words[i])
    ensures WsSplit(JoinWith(words, " ")) == words
  {
    if |words| == 0 {
      assert LStrip("") == "";
    } else if |words| == 1 {
      WsSplitSingle(words[0]);
    } else {
      var tail := words[1..];
      assert forall i :: 0 <= i < |tail| ==> tail[i] == words[i + 1];
      WsSplitJoin(tail);
      WsSplitJoinStep(words);
    }
  }

  // ----------------------------------------------------------- lower case

  /** `c.lower()` for ASCII letters; other characters are left as they are. */
  function LowerChar(c: char): char
  {
    if 'A' <= c <= 'Z' then (c as int + 32) as char else c
  }

  /** `s.lower()` (ASCII case mapping). */
  function Lower(s: string): (r: string)
    ensures |r| == |s|
    ensures forall i :: 0 <= i < |s| ==> r[i] == LowerChar(s[i])
  {
    seq(|s|, i requires 0 <= i < |s| => LowerChar(s[i]))
  }

  lemma LowerIdempotent(s: string)
    ensures Lower(Lower(s)) == Lower(s)
  {
  }

  // ------------------------------------------------------------ substring

  predicate OccursAt(needle: string, hay: string, i: nat)
  {
    i + |needle| <= |hay| && hay[i..i + |needle|] == needle
  }

  /** `needle in hay` for strings, computed by scanning start positions. */
  function IsSubstring(needle: string, hay: string): (b: bool)
    ensures b <==> exists i: nat :: OccursAt(needle, hay, i)
  {
    if needle <= hay then
      assert OccursAt(needle, hay, 0);
      true
    else if hay == [] then false
    else
      var b := IsSubstring(needle, hay[1..]);
      assert b ==> exists i: nat :: OccursAt(needle, hay, i) by {
        if b {
          var i: nat :| OccursAt(needle, hay[1..], i);
          assert hay[1..][i..i + |needle|] == hay[i + 1..i + 1 + |needle|];
          assert OccursAt(needle, hay, i + 1);
        }
      }
      assert (exists i: nat :: OccursAt(needle, hay, i)) ==> b by {
        if exists i: nat :: OccursAt(needle, hay, i) {
          var i: nat :| OccursAt(needle, hay, i);
          assert i > 0;
          assert hay[1..][i - 1..i - 1 + |needle|] == hay[i..i + |needle|];
          assert OccursAt(needle, hay[1..], i - 1);
        }
      }
      b
  }
}

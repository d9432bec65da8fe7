/** The sequential collection and text helpers of `ElsevierAPI/utils/utils.py`. */
module Utils {
  import opened Wrappers
  import opened Strings
  import Sorting

  function Min(a: int, b: int): int
  {
    if a < b then a else b
  }

  /** The elements of `ss` one after another (`itertools.chain`). */
  function Concat<T>(ss: seq<seq<T>>): seq<T>
  {
    if ss == [] then [] else Concat(ss[..|ss| - 1]) + ss[|ss| - 1]
  }

  lemma ConcatSnoc<T>(ss: seq<seq<T>>)
    requires ss != []
    ensures Concat(ss) == Concat(ss[..|ss| - 1]) + ss[|ss| - 1]
  {
  }

  /** An element is in the concatenation exactly when it is in one of the parts. */
  lemma {:induction false} ConcatMembers<T>(ss: seq<seq<T>>)
    ensures forall x :: x in Concat(ss) <==> exists i :: 0 <= i < |ss| && x in ss[i]
  {
    if ss != [] {
      var init, last := ss[..|ss| - 1], ss[|ss| - 1];
      ConcatMembers(init);
      ConcatSnoc(ss);
      forall x ensures x in Concat(ss) <==> exists i :: 0 <= i < |ss| && x in ss[i] {
        if x in Concat(init) {
          var i :| 0 <= i < |init| && x in init[i];
          assert ss[i] == init[i];
        } else if x in last {
          assert x in ss[|ss| - 1];
        } else {
          forall i | 0 <= i < |ss| ensures x !in ss[i] {
            if i < |init| {
              assert ss[i] == init[i];
            }
          }
        }
      }
    }
  }

  // ------------------------------------------------- list2chunks_generator

  /** The number of chunks the generator plans: `ceil(len / chunk_size)` when a
      chunk size is given, and `num_chunks` otherwise. */
  function PlannedChunks(len: nat, numChunks: int, chunkSize: nat): int
  {
    if chunkSize > 0 then (len + chunkSize - 1) / chunkSize else numChunks
  }

  /** The size of chunk `i` when `len` elements are spread over `n` chunks. */
  function ChunkSize(len: nat, n: nat, i: nat): nat
    requires n > 0
  {
    len / n + (if i < len % n then 1 else 0)
  }

  /** Where chunk `i` starts: after `i` chunks of the base size and one extra
      element for each earlier chunk that takes part of the remainder. */
  function ChunkStart(len: nat, n: nat, i: nat): nat
    requires n > 0
  {
    i * (len / n) + Min(i, len % n)
  }

  lemma MulMono(a: nat, b: nat, m: nat)
    requires a <= b
    ensures a * m <= b * m
  {
  }

  lemma DivSmall(len: nat, n: nat)
    requires len < n
    ensures len / n == 0 && len % n == len
  {
    var q, r := len / n, len % n;
    assert len == n * q + r;
    if q > 0 {
      MulMono(1, q, n);
    }
  }

  lemma DivLarge(len: nat, n: nat)
    requires 0 < n <= len
    ensures len / n >= 1
  {
    var q, r := len / n, len % n;
    assert len == n * q + r;
  }

  lemma ChunkStartStep(len: nat, n: nat, i: nat)
    requires n > 0
    ensures ChunkStart(len, n, i + 1) == ChunkStart(len, n, i) + ChunkSize(len, n, i)
  {
    assert (i + 1) * (len / n) == i * (len / n) + len / n;
  }

  /** The last chunk ends at the end of the list. */
  lemma ChunkStartEnd(len: nat, n: nat)
    requires n > 0
    ensures ChunkStart(len, n, Min(n, len)) == len
  {
    if len < n {
      DivSmall(len, n);
    } else {
      assert len == n * (len / n) + len % n;
    }
  }

  /** Before position `min(n, len)` every chunk holds at least one element. */
  lemma ChunkSizePositive(len: nat, n: nat, i: nat)
    requires n > 0 && i < Min(n, len)
    ensures ChunkSize(len, n, i) >= 1
  {
    if len < n {
      DivSmall(len, n);
    } else {
      DivLarge(len, n);
    }
  }

  lemma ChunkStartMono(len: nat, n: nat, i: nat, j: nat)
    requires n > 0 && i <= j
    ensures ChunkStart(len, n, i) <= ChunkStart(len, n, j)
  {
    MulMono(i, j, len / n);
  }

  /** Chunks start inside the list exactly up to position `min(n, len)`. */
  lemma ChunkStartBounds(len: nat, n: nat, i: nat)
    requires n > 0 && i <= n
    ensures ChunkStart(len, n, i) <= len
    ensures ChunkStart(len, n, i) < len <==> i < Min(n, len)
  {
    var m := Min(n, len);
    ChunkStartEnd(len, n);
    if i < m {
      ChunkSizePositive(len, n, i);
      ChunkStartStep(len, n, i);
      ChunkStartMono(len, n, i + 1, m);
    } else {
      ChunkStartMono(len, n, m, i);
      ChunkStartMono(len, n, i, n);
      ChunkStartEnd(len, n);
      if len < n {
        DivSmall(len, n);
        assert ChunkStart(len, n, i) == i * 0 + len;
      } else {
        assert i == n;
      }
    }
  }

  /** The balanced partition of `s` into `min(n, |s|)` consecutive chunks. */
  function Balanced<T>(s: seq<T>, n: nat): (r: seq<seq<T>>)
    requires n > 0
    ensures |r| == Min(n, |s|)
  {
    seq(Min(n, |s|), i requires 0 <= i < Min(n, |s|) =>
      ChunkStartBounds(|s|, n, i);
      ChunkStartBounds(|s|, n, i + 1);
      ChunkStartStep(|s|, n, i);
      s[ChunkStart(|s|, n, i)..ChunkStart(|s|, n, i + 1)])
  }

  lemma BalancedAt<T>(s: seq<T>, n: nat, i: nat)
    requires n > 0 && i < Min(n, |s|)
    ensures ChunkStart(|s|, n, i) <= ChunkStart(|s|, n, i + 1) <= |s|
    ensures Balanced(s, n)[i] == s[ChunkStart(|s|, n, i)..ChunkStart(|s|, n, i + 1)]
  {
    ChunkStartBounds(|s|, n, i + 1);
    ChunkStartStep(|s|, n, i);
  }

  /** `list2chunks_generator(input_list, num_chunks, chunk_size)`: the yielded
      `(chunk number, chunk)` pairs, or the `AssertionError` raised when neither
      a chunk size nor a positive number of chunks is given. */
  method ListToChunks<T>(input: seq<T>, numChunks: int, chunkSize: nat) returns (r: Result<seq<(nat, seq<T>)>>)
    ensures r.Failure? <==> chunkSize == 0 && numChunks <= 0
    ensures r.Success? && input == [] ==> r.value == []
    ensures r.Success? && input != [] ==>
      var n := PlannedChunks(|input|, numChunks, chunkSize);
      n > 0 && |r.value| == Min(n, |input|) &&
      forall i :: 0 <= i < |r.value| ==> r.value[i] == (i, Balanced(input, n)[i])
  {
    var len := |input|;
    var n := numChunks;
    if chunkSize != 0 {
      n := (len + chunkSize - 1) / chunkSize;
      if len > 0 {
        DivLarge(len + chunkSize - 1, chunkSize);
      }
    } else if numChunks <= 0 {
      return Failure("AssertionError");
    }
    if len == 0 {
      return Success([]);
    }
    if n == 0 {
      // `list2chunks_generator` would yield the whole list here, then divide by zero
      assert false;
    }
    var chunks := YieldChunks(input, n);
    return Success(chunks);
  }

  /** The loop of `list2chunks_generator` for a nonempty list and `n > 0` chunks. */
  method YieldChunks<T>(input: seq<T>, n: nat) returns (chunks: seq<(nat, seq<T>)>)
    requires input != [] && n > 0
    ensures |chunks| == Min(n, |input|)
    ensures forall i :: 0 <= i < |chunks| ==> chunks[i] == (i, Balanced(input, n)[i])
  {
    var len := |input|;
    var base := len / n;
    var remainder := len % n;
    var start := 0;
    chunks := [];
    var i := 0;
    ghost var want := Balanced(input, n);
    while i < n
      invariant 0 <= i < Min(n, len)
      invariant start == ChunkStart(len, n, i) < len
      invariant |chunks| == i
      invariant forall j :: 0 <= j < i ==> chunks[j] == (j, want[j])
    {
      ChunkStartBounds(len, n, i + 1);
      ChunkStartStep(len, n, i);
      ChunkSizePositive(len, n, i);
      var realChunkSize := base + (if i < remainder then 1 else 0);
      if realChunkSize == 0 && start < len {
        // `continue`: every chunk before the list is used up holds an element
        assert false;
      }
      var end := start + realChunkSize;
      BalancedAt(input, n, i);
      assert want[i] == input[start..end];
      chunks := chunks + [(i, input[start..end])];
      start := end;
      if start >= len {
        assert i + 1 == Min(n, len);
        break;
      }
      assert i + 1 < Min(n, len);
      i := i + 1;
    }
  }

  lemma BalancedPrefixStep<T>(s: seq<T>, n: nat, k: nat)
    requires n > 0 && 0 < k <= Min(n, |s|)
    requires ChunkStart(|s|, n, k - 1) <= ChunkStart(|s|, n, k) <= |s|
    requires Concat(Balanced(s, n)[..k - 1]) == s[..ChunkStart(|s|, n, k - 1)]
    ensures Concat(Balanced(s, n)[..k]) == s[..ChunkStart(|s|, n, k)]
  {
    var b := Balanced(s, n);
    var p, q := ChunkStart(|s|, n, k - 1), ChunkStart(|s|, n, k);
    assert p <= q <= |s| && b[k - 1] == s[p..q] by {
      BalancedAt(s, n, k - 1);
    }
    assert Concat(b[..k]) == Concat(b[..k - 1]) + b[k - 1] by {
      ConcatSnoc(b[..k]);
      assert b[..k][..k - 1] == b[..k - 1];
    }
    assert s[..p] + s[p..q] == s[..q];
  }

  lemma {:induction false} BalancedPrefix<T>(s: seq<T>, n: nat, k: nat)
    requires n > 0 && k <= Min(n, |s|)
    ensures ChunkStart(|s|, n, k) <= |s|
    ensures Concat(Balanced(s, n)[..k]) == s[..ChunkStart(|s|, n, k)]
  {
    ChunkStartBounds(|s|, n, k);
    if k > 0 {
      BalancedPrefix(s, n, k - 1);
      assert ChunkStart(|s|, n, k - 1) <= ChunkStart(|s|, n, k) by {
        BalancedAt(s, n, k - 1);
      }
      BalancedPrefixStep(s, n, k);
    }
  }

  /** Concatenating the chunks in order gives back the input list. */
  lemma BalancedConcat<T>(s: seq<T>, n: nat)
    requires n > 0
    ensures Concat(Balanced(s, n)) == s
  {
    var b := Balanced(s, n);
    BalancedPrefix(s, n, |b|);
    ChunkStartEnd(|s|, n);
    assert b[..|b|] == b;
  }

  /** No chunk is empty, and chunk sizes never grow and differ by at most one:
      the first `len % n` chunks hold `len / n + 1` elements, the others `len / n`. */
  lemma BalancedSizes<T>(s: seq<T>, n: nat)
    requires n > 0
    ensures forall i :: 0 <= i < Min(n, |s|) ==>
      |Balanced(s, n)[i]| == |s| / n + (if i < |s| % n then 1 else 0) > 0
    ensures forall i, j :: 0 <= i < j < Min(n, |s|) ==>
      |Balanced(s, n)[j]| <= |Balanced(s, n)[i]| <= |Balanced(s, n)[j]| + 1
  {
    forall i | 0 <= i < Min(n, |s|)
      ensures |Balanced(s, n)[i]| == |s| / n + (if i < |s| % n then 1 else 0) > 0
    {
      BalancedSizeAt(s, n, i);
    }
    forall i, j | 0 <= i < j < Min(n, |s|)
      ensures |Balanced(s, n)[j]| <= |Balanced(s, n)[i]| <= |Balanced(s, n)[j]| + 1
    {
      BalancedSizeAt(s, n, i);
      BalancedSizeAt(s, n, j);
    }
  }

  lemma BalancedSizeAt<T>(s: seq<T>, n: nat, i: nat)
    requires n > 0 && i < Min(n, |s|)
    ensures |Balanced(s, n)[i]| == ChunkSize(|s|, n, i) > 0
  {
    BalancedAt(s, n, i);
    ChunkStartStep(|s|, n, i);
    ChunkSizePositive(|s|, n, i);
  }

  /** With a chunk size `c`, `ceil(len / c)` balanced chunks hold at most `c` elements each. */
  lemma ChunkSizeBound<T>(s: seq<T>, c: nat)
    requires c > 0 && s != []
    ensures var n := PlannedChunks(|s|, 0, c);
      n > 0 && forall i :: 0 <= i < Min(n, |s|) ==> |Balanced(s, n)[i]| <= c
  {
    var len := |s|;
    var n := (len + c - 1) / c;
    DivLarge(len + c - 1, c);
    assert len + c - 1 == c * n + (len + c - 1) % c;
    assert n * c >= len;
    var base, rem := len / n, len % n;
    assert len == n * base + rem;
    if rem > 0 {
      if base >= c {
        MulMono(c, base, n);
      }
      assert base + 1 <= c;
    } else {
      assert base <= c;
    }
    BalancedSizes(s, n);
  }

  // ---------------------------------------------------------------- bisect

  /** The criterion is false on a prefix of `s` and true on the rest. */
  predicate Monotone<T>(s: seq<T>, criterion: T -> bool)
  {
    forall i, j :: 0 <= i <= j < |s| && criterion(s[i]) ==> criterion(s[j])
  }

  /** `bisect(data_list, criterion)`. Whatever the criterion, a result `r >= 0`
      is a place where it turns from false to true, and `-1` means it is false
      on the last element; on a monotone criterion that makes `r` the first
      index where it holds, and `-1` exactly when it holds nowhere. */
  method Bisect<T>(s: seq<T>, criterion: T -> bool) returns (r: int)
    ensures -1 <= r < |s|
    ensures r >= 0 ==> criterion(s[r]) && (r == 0 || !criterion(s[r - 1]))
    ensures r == -1 ==> s == [] || !criterion(s[|s| - 1])
    ensures Monotone(s, criterion) ==> (r == -1 <==> forall i :: 0 <= i < |s| ==> !criterion(s[i]))
    ensures Monotone(s, criterion) && r >= 0 ==> forall i :: 0 <= i < r ==> !criterion(s[i])
  {
    var low, high := 0, |s| - 1;
    var bisectorIndex := -1;
    while low <= high
      invariant 0 <= low <= high + 1 <= |s|
      invariant bisectorIndex == -1 ==> high == |s| - 1
      invariant bisectorIndex != -1 ==> 0 <= bisectorIndex == high + 1 < |s| && criterion(s[bisectorIndex])
      invariant low > 0 ==> !criterion(s[low - 1])
      decreases high - low
    {
      var mid := (low + high) / 2;
      if criterion(s[mid]) {
        bisectorIndex := mid;
        high := mid - 1;
      } else {
        low := mid + 1;
      }
    }
    return bisectorIndex;
  }

  // ----------------------------------------------- remove_duplicates, unpack

  /** No element occurs twice. */
  predicate NoDuplicates<T(==)>(s: seq<T>)
  {
    forall i, j :: 0 <= i < j < |s| ==> s[i] != s[j]
  }

  /** Where `x` first occurs in `s`. */
  function IndexOf<T(==)>(s: seq<T>, x: T): (i: nat)
    requires x in s
    ensures i < |s| && s[i] == x && x !in s[..i]
  {
    if s[0] == x then 0 else 1 + IndexOf(s[1..], x)
  }

  /** The first occurrence of each element of `s`, in the order of `s`. */
  function Dedup<T(==)>(s: seq<T>): seq<T>
  {
    if s == [] then []
    else
      var init := s[..|s| - 1];
      Dedup(init) + (if s[|s| - 1] in init then [] else [s[|s| - 1]])
  }

  lemma {:induction false} IndexOfInit<T>(s: seq<T>, x: T)
    requires s != [] && x in s[..|s| - 1]
    ensures IndexOf(s, x) == IndexOf(s[..|s| - 1], x)
  {
    var init := s[..|s| - 1];
    if s[0] != x {
      assert init[0] == s[0];
      assert init[1..] == s[1..][..|s[1..]| - 1];
      IndexOfInit(s[1..], x);
    }
  }

  /** `Dedup` keeps exactly the elements of its input, each once, ordered by first occurrence. */
  lemma {:induction false} DedupProperties<T>(s: seq<T>)
    ensures forall i :: 0 <= i < |Dedup(s)| ==> Dedup(s)[i] in s
    ensures forall i :: 0 <= i < |s| ==> s[i] in Dedup(s)
    ensures NoDuplicates(Dedup(s))
    ensures forall i, j :: 0 <= i < j < |Dedup(s)| ==> IndexOf(s, Dedup(s)[i]) < IndexOf(s, Dedup(s)[j])
  {
    if s != [] {
      var init, last := s[..|s| - 1], s[|s| - 1];
      DedupProperties(init);
      var d := Dedup(s);
      var di := Dedup(init);
      var tail := if last in init then [] else [last];
      assert d == di + tail;
      forall i | 0 <= i < |di| ensures d[i] == di[i] && di[i] in init && IndexOf(s, d[i]) == IndexOf(init, di[i]) {
        IndexOfInit(s, di[i]);
      }
      if last !in init {
        assert d[|di|] == last;
        assert IndexOf(s, last) == |s| - 1 by {
          assert s[|s| - 1] == last && last !in s[..|s| - 1];
        }
      }
      forall i | 0 <= i < |s| ensures s[i] in d {
        if i < |s| - 1 {
          assert s[i] == init[i];
        }
      }
      forall i, j | 0 <= i < j < |d| ensures d[i] != d[j] && IndexOf(s, d[i]) < IndexOf(s, d[j]) {
      }
    }
  }

  /** `remove_duplicates(items)`: a `seen` set built up while scanning. */
  method RemoveDuplicates<T(==)>(items: seq<T>) returns (r: seq<T>)
    ensures r == Dedup(items)
  {
    var seen: set<T> := {};
    r := [];
    for i := 0 to |items|
      invariant forall x :: x in seen <==> x in items[..i]
      invariant r == Dedup(items[..i])
    {
      var x := items[i];
      assert items[..i + 1][..i] == items[..i];
      if x !in seen {
        r := r + [x];
        seen := seen + {x};
      }
    }
    assert items[..|items|] == items;
  }

  /** `unpack(list_of_lists, make_unique)`: the chained lists, deduplicated in
      first-occurrence order when `make_unique`. */
  function Unpack<T(==)>(lists: seq<seq<T>>, makeUnique: bool): (r: seq<T>)
    ensures forall i :: 0 <= i < |r| ==> r[i] in Concat(lists)
    ensures forall i :: 0 <= i < |Concat(lists)| ==> Concat(lists)[i] in r
    ensures makeUnique ==> NoDuplicates(r)
  {
    DedupProperties(Concat(lists));
    if makeUnique then Dedup(Concat(lists)) else Concat(lists)
  }

  lemma UnpackProperties<T>(lists: seq<seq<T>>, makeUnique: bool)
    ensures forall x :: x in Unpack(lists, makeUnique) <==> x in Concat(lists)
    ensures forall x :: x in Unpack(lists, makeUnique) <==> exists i :: 0 <= i < |lists| && x in lists[i]
    ensures !makeUnique ==> |Unpack(lists, makeUnique)| == |Concat(lists)|
    ensures makeUnique ==> NoDuplicates(Unpack(lists, makeUnique))
    ensures makeUnique ==> forall i, j :: 0 <= i < j < |Unpack(lists, makeUnique)| ==>
      IndexOf(Concat(lists), Unpack(lists, makeUnique)[i]) < IndexOf(Concat(lists), Unpack(lists, makeUnique)[j])
  {
    ConcatMembers(lists);
    DedupProperties(Concat(lists));
  }

  // ------------------------------------------------------ normalize_filename

  /** The characters `normalize_filename` replaces. */
  predicate IllegalInFilename(c: char)
  {
    c == '>' || c == '<' || c == '|' || c == '/' || c == ':'
  }

  function FilenameChar(c: char): char
  {
    if c == ':' then '_' else if IllegalInFilename(c) then '-' else c
  }

  /** `normalize_filename(name)`: `>`, `<`, `|` and `/` become `-`, `:` becomes `_`. */
  function NormalizeFilename(name: string): (r: string)
    ensures |r| == |name|
    ensures forall i :: 0 <= i < |r| ==> !IllegalInFilename(r[i])
    ensures forall i :: 0 <= i < |name| && !IllegalInFilename(name[i]) ==> r[i] == name[i]
    ensures forall i :: 0 <= i < |name| && IllegalInFilename(name[i]) ==>
      r[i] == (if name[i] == ':' then '_' else '-')
  {
    seq(|name|, i requires 0 <= i < |name| => FilenameChar(name[i]))
  }

  /** A normalized name is left alone by a second normalization. */
  lemma NormalizeFilenameIdempotent(name: string)
    ensures NormalizeFilename(NormalizeFilename(name)) == NormalizeFilename(name)
  {
  }

  // ----------------------------------------------------------- greek2english

  /** `GREEK2ENGLISH`: the 24 lower-case Greek letters (final sigma is not
      among them) and the 24 capitals, each with its spelled-out name. */
  const GREEK_LOWER: map<char, string> := map[
      '\U{3b1}' := "alpha",
      '\U{3b2}' := "beta",
      '\U{3b3}' := "gamma",
      '\U{3b4}' := "delta",
      '\U{3b5}' := "epsilon",
      '\U{3b6}' := "zeta",
      '\U{3b7}' := "eta",
      '\U{3b8}' := "theta",
      '\U{3b9}' := "iota",
      '\U{3ba}' := "kappa",
      '\U{3bb}' := "lambda",
      '\U{3bc}' := "mu",
      '\U{3bd}' := "nu",
      '\U{3be}' := "xi",
      '\U{3bf}' := "omicron",
      '\U{3c0}' := "pi",
      '\U{3c1}' := "rho",
      '\U{3c3}' := "sigma",
      '\U{3c4}' := "tau",
      '\U{3c5}' := "upsilon",
      '\U{3c6}' := "phi",
      '\U{3c7}' := "chi",
      '\U{3c8}' := "psi",
      '\U{3c9}' := "omega"
    ]

  const GREEK_UPPER: map<char, string> := map[
      '\U{391}' := "Alpha",
      '\U{392}' := "Beta",
      '\U{393}' := "Gamma",
      '\U{394}' := "Delta",
      '\U{395}' := "Epsilon",
      '\U{396}' := "Zeta",
      '\U{397}' := "Eta",
      '\U{398}' := "Theta",
      '\U{399}' := "Iota",
      '\U{39a}' := "Kappa",
      '\U{39b}' := "Lambda",
      '\U{39c}' := "Mu",
      '\U{39d}' := "Nu",
      '\U{39e}' := "Xi",
      '\U{39f}' := "Omicron",
      '\U{3a0}' := "Pi",
      '\U{3a1}' := "Rho",
      '\U{3a3}' := "Sigma",
      '\U{3a4}' := "Tau",
      '\U{3a5}' := "Upsilon",
      '\U{3a6}' := "Phi",
      '\U{3a7}' := "Chi",
      '\U{3a8}' := "Psi",
      '\U{3a9}' := "Omega"
    ]

  const GREEK2ENGLISH: map<char, string> := GREEK_LOWER + GREEK_UPPER

  predicate AsciiLetter(c: char)
  {
    'A' <= c <= 'Z' || 'a' <= c <= 'z'
  }

  lemma GreekLowerKey(c: char)
    requires c in GREEK_LOWER
    ensures '\U{370}' <= c < '\U{400}'
    ensures GREEK_LOWER[c] != [] && forall i :: 0 <= i < |GREEK_LOWER[c]| ==> AsciiLetter(GREEK_LOWER[c][i])
  {
  }

  lemma GreekUpperKey(c: char)
    requires c in GREEK_UPPER
    ensures '\U{370}' <= c < '\U{400}'
    ensures GREEK_UPPER[c] != [] && forall i :: 0 <= i < |GREEK_UPPER[c]| ==> AsciiLetter(GREEK_UPPER[c][i])
  {
  }

  /** Greek letters lie in the Greek block, and their names in ASCII letters. */
  lemma GreekKey(c: char)
    requires c in GREEK2ENGLISH
    ensures '\U{370}' <= c < '\U{400}'
    ensures GREEK2ENGLISH[c] != [] && forall i :: 0 <= i < |GREEK2ENGLISH[c]| ==> AsciiLetter(GREEK2ENGLISH[c][i])
  {
    if c in GREEK_UPPER {
      GreekUpperKey(c);
    } else {
      GreekLowerKey(c);
    }
  }

  /** What one character becomes: its name when it is a Greek letter, else itself. */
  function Transliterate(c: char): (w: string)
    ensures forall i :: 0 <= i < |w| ==> w[i] !in GREEK2ENGLISH
    ensures c in GREEK2ENGLISH ==> w == GREEK2ENGLISH[c] && w != [] && forall i :: 0 <= i < |w| ==> AsciiLetter(w[i])
    ensures c !in GREEK2ENGLISH ==> w == [c]
  {
    if c in GREEK2ENGLISH then
      var w := GREEK2ENGLISH[c];
      GreekKey(c);
      assert forall i :: 0 <= i < |w| ==> w[i] !in GREEK2ENGLISH by {
        forall i | 0 <= i < |w| ensures w[i] !in GREEK2ENGLISH {
          if w[i] in GREEK2ENGLISH {
            GreekKey(w[i]);
          }
        }
      }
      w
    else [c]
  }

  /** `greek2english(text)`: every Greek letter replaced by its name, each match
      on its own (all keys of the pattern are single characters). */
  function Greek2English(text: string): (r: string)
    ensures forall i :: 0 <= i < |r| ==> r[i] !in GREEK2ENGLISH
  {
    if text == [] then ""
    else
      var head, rest := Transliterate(text[0]), Greek2English(text[1..]);
      assert forall i :: |head| <= i < |head + rest| ==> (head + rest)[i] == rest[i - |head|];
      head + rest
  }

  /** The substitution works on each character separately. */
  lemma {:induction false} Greek2EnglishConcat(a: string, b: string)
    ensures Greek2English(a + b) == Greek2English(a) + Greek2English(b)
  {
    if a == [] {
      assert a + b == b;
    } else {
      assert (a + b)[0] == a[0] && (a + b)[1..] == a[1..] + b;
      Greek2EnglishConcat(a[1..], b);
    }
  }

  /** Text without Greek letters is unchanged; in particular the function is idempotent. */
  lemma {:induction false} Greek2EnglishNoGreek(text: string)
    requires forall i :: 0 <= i < |text| ==> text[i] !in GREEK2ENGLISH
    ensures Greek2English(text) == text
  {
    if text != [] {
      Greek2EnglishNoGreek(text[1..]);
      assert [text[0]] + text[1..] == text;
    }
  }

  /** The output is the concatenation of what each character of the text becomes. */
  lemma {:induction false} Greek2EnglishPerChar(text: string)
    ensures Greek2English(text) == Concat(seq(|text|, i requires 0 <= i < |text| => Transliterate(text[i])))
  {
    var parts := seq(|text|, i requires 0 <= i < |text| => Transliterate(text[i]));
    if text == [] {
      assert parts == [];
    } else {
      var init, last := text[..|text| - 1], text[|text| - 1];
      var initParts := seq(|init|, i requires 0 <= i < |init| => Transliterate(init[i]));
      assert parts[..|parts| - 1] == initParts;
      Greek2EnglishPerChar(init);
      assert init + [last] == text;
      Greek2EnglishConcat(init, [last]);
      assert [last][1..] == [];
      ConcatSnoc(parts);
    }
  }

  lemma Greek2EnglishIdempotent(text: string)
    ensures Greek2English(Greek2English(text)) == Greek2English(text)
  {
    Greek2EnglishNoGreek(Greek2English(text));
  }

  // ---------------------------------------------------------------- sortdict

  /** `s[:top]` in Python, where a negative `top` counts from the end. */
  function TakeTop<T>(s: seq<T>, top: int): (r: seq<T>)
    ensures r <= s
    ensures top >= 0 ==> |r| == Min(top, |s|)
    ensures top < 0 ==> |r| == (if |s| + top > 0 then |s| + top else 0)
  {
    if top >= 0 then s[..Min(top, |s|)]
    else if |s| + top > 0 then s[..|s| + top]
    else []
  }

  /** The sort key of an item: its key when `by_key`, else its value. */
  function ItemKey<K, V>(byKey: bool, keyOrder: K -> seq<int>, valueOrder: V -> seq<int>): ((K, V)) -> seq<int>
  {
    if byKey then (kv: (K, V)) => keyOrder(kv.0) else (kv: (K, V)) => valueOrder(kv.1)
  }

  /** `sortdict(indic, by_key, reverse, return_top)` on the items of a dict, in
      insertion order. `keyOrder` and `valueOrder` give Python's order on the
      keys and the values as sort keys. */
  function SortDict<K, V>(items: seq<(K, V)>, keyOrder: K -> seq<int>, valueOrder: V -> seq<int>,
                          byKey: bool, reverse: bool, returnTop: int): (r: seq<(K, V)>)
    ensures |r| <= |items|
    ensures returnTop == 0 ==> multiset(r) == multiset(items)
  {
    var sortedItems := Sorting.SortBy(items, ItemKey(byKey, keyOrder, valueOrder), reverse);
    Sorting.SortByLength(items, ItemKey(byKey, keyOrder, valueOrder), reverse);
    if returnTop != 0 then TakeTop(sortedItems, returnTop) else sortedItems
  }

  /** The result is ordered by the chosen key (descending when `reverse`), holds
      only items of the input, and is as long as Python's slice says. */
  lemma SortDictOrdered<K, V>(items: seq<(K, V)>, keyOrder: K -> seq<int>, valueOrder: V -> seq<int>,
                               byKey: bool, reverse: bool, returnTop: int)
    ensures var r := SortDict(items, keyOrder, valueOrder, byKey, reverse, returnTop);
      Sorting.SortedBy(r, ItemKey(byKey, keyOrder, valueOrder), reverse) &&
      (returnTop == 0 ==> multiset(r) == multiset(items)) &&
      (returnTop > 0 ==> |r| == Min(returnTop, |items|)) &&
      (returnTop < 0 ==> |r| == (if |items| + returnTop > 0 then |items| + returnTop else 0)) &&
      (forall x :: x in r ==> x in items)
  {
    var key := ItemKey(byKey, keyOrder, valueOrder);
    var sortedItems := Sorting.SortBy(items, key, reverse);
    var r := SortDict(items, keyOrder, valueOrder, byKey, reverse, returnTop);
    Sorting.SortBySorted(items, key, reverse);
    Sorting.SortByLength(items, key, reverse);
    assert r <= sortedItems;
    forall i, j | 0 <= i < j < |r| ensures !Sorting.Precedes(key(r[j]), key(r[i]), reverse) {
      assert r[i] == sortedItems[i] && r[j] == sortedItems[j];
    }
    forall x | x in r ensures x in items {
      assert x in multiset(sortedItems);
    }
  }

  /** With `return_top`, no dropped item would have been placed before a kept one. */
  lemma SortDictTop<K, V>(items: seq<(K, V)>, keyOrder: K -> seq<int>, valueOrder: V -> seq<int>,
                           byKey: bool, reverse: bool, returnTop: int)
    ensures var r := SortDict(items, keyOrder, valueOrder, byKey, reverse, returnTop);
      var key := ItemKey(byKey, keyOrder, valueOrder);
      forall x, y :: x in items && x !in r && y in r ==> !Sorting.Precedes(key(x), key(y), reverse)
  {
    var key := ItemKey(byKey, keyOrder, valueOrder);
    var sortedItems := Sorting.SortBy(items, key, reverse);
    var r := SortDict(items, keyOrder, valueOrder, byKey, reverse, returnTop);
    Sorting.SortBySorted(items, key, reverse);
    assert r <= sortedItems;
    forall x, y | x in items && x !in r && y in r ensures !Sorting.Precedes(key(x), key(y), reverse) {
      assert x in multiset(sortedItems);
      var j :| 0 <= j < |sortedItems| && sortedItems[j] == x;
      var i :| 0 <= i < |r| && r[i] == y;
      assert sortedItems[i] == y;
    }
  }

  /** Without `return_top`, items with equal keys keep their input order (the sort is stable). */
  lemma SortDictStable<K, V>(items: seq<(K, V)>, keyOrder: K -> seq<int>, valueOrder: V -> seq<int>,
                              byKey: bool, reverse: bool, k: seq<int>)
    ensures Sorting.KeyClass(SortDict(items, keyOrder, valueOrder, byKey, reverse, 0), ItemKey(byKey, keyOrder, valueOrder), k) ==
            Sorting.KeyClass(items, ItemKey(byKey, keyOrder, valueOrder), k)
  {
    Sorting.SortByStable(items, ItemKey(byKey, keyOrder, valueOrder), reverse, k);
  }

  // ---------------------------------------------------------------- list2str

  /** `list2str(dic)`: each list value joined into one `;`-separated string. */
  function List2Str<K>(dic: map<K, seq<string>>): (r: map<K, string>)
    ensures r.Keys == dic.Keys
  {
    map k | k in dic :: JoinWith(dic[k], ";")
  }

  /** Splitting a value at `;` gives the list back when it was nonempty and no
      element held a `;`; splitting then joining always gives the string back. */
  lemma List2StrRoundTrip<K>(dic: map<K, seq<string>>, k: K)
    requires k in dic
    ensures |dic[k]| > 0 && (forall i :: 0 <= i < |dic[k]| ==> ';' !in dic[k][i]) ==>
      Split(List2Str(dic)[k], ';') == dic[k]
    ensures JoinWith(Split(List2Str(dic)[k], ';'), ";") == List2Str(dic)[k]
  {
    if |dic[k]| > 0 && (forall i :: 0 <= i < |dic[k]| ==> ';' !in dic[k][i]) {
      SplitJoin(dic[k], ';');
    }
    JoinSplit(List2Str(dic)[k], ';');
  }

  // ----------------------------------------------------------- most_frequent

  /** The position of the first element of `cands` with the largest count in `data`. */
  function {:induction false} FirstMostCommon<T(==)>(cands: seq<T>, data: seq<T>): (j: nat)
    requires cands != []
    ensures j < |cands|
    ensures forall i :: 0 <= i < |cands| ==> multiset(data)[cands[i]] <= multiset(data)[cands[j]]
    ensures forall i :: 0 <= i < j ==> multiset(data)[cands[i]] < multiset(data)[cands[j]]
  {
    if |cands| == 1 then 0
    else
      var init := cands[..|cands| - 1];
      var b := FirstMostCommon(init, data);
      assert forall i :: 0 <= i < |init| ==> init[i] == cands[i];
      if multiset(data)[cands[|cands| - 1]] > multiset(data)[cands[b]] then |cands| - 1 else b
  }

  lemma InDedupAt<T>(data: seq<T>, i: nat) returns (k: nat)
    requires i < |data|
    ensures k < |Dedup(data)| && Dedup(data)[k] == data[i]
  {
    DedupProperties(data);
    assert data[i] in Dedup(data);
    k :| 0 <= k < |Dedup(data)| && Dedup(data)[k] == data[i];
  }

  lemma MostCommonChoice<T>(data: seq<T>)
    requires data != []
    ensures Dedup(data) != []
    ensures var cands := Dedup(data); var x := cands[FirstMostCommon(cands, data)];
      x in data &&
      (forall i :: 0 <= i < |data| ==> multiset(data)[data[i]] <= multiset(data)[x]) &&
      (forall i :: 0 <= i < |data| && multiset(data)[data[i]] == multiset(data)[x] ==> IndexOf(data, x) <= i)
  {
    var k0 := InDedupAt(data, 0);
    var cands := Dedup(data);
    var j := FirstMostCommon(cands, data);
    var x := cands[j];
    DedupProperties(data);
    forall i | 0 <= i < |data| ensures multiset(data)[data[i]] <= multiset(data)[x] {
      var k := InDedupAt(data, i);
    }
    forall i | 0 <= i < |data| && multiset(data)[data[i]] == multiset(data)[x]
      ensures IndexOf(data, x) <= i
    {
      var k := InDedupAt(data, i);
      MostCommonFirst(data, i, j, k);
    }
  }

  lemma MostCommonFirst<T>(data: seq<T>, i: nat, j: nat, k: nat)
    requires i < |data| && j <= k < |Dedup(data)| && Dedup(data)[k] == data[i]
    ensures Dedup(data)[j] in data && IndexOf(data, Dedup(data)[j]) <= i
  {
    DedupProperties(data);
  }

  /** `most_frequent(data)`: `None` for an empty list, otherwise an element with the
      largest count, the one seen first among equals (`Counter.most_common(1)`). */
  function MostFrequent<T(==)>(data: seq<T>): (r: Option<T>)
    ensures r.None? <==> data == []
    ensures r.Some? ==> r.value in data
    ensures r.Some? ==> forall i :: 0 <= i < |data| ==> multiset(data)[data[i]] <= multiset(data)[r.value]
    ensures r.Some? ==> forall i :: 0 <= i < |data| && multiset(data)[data[i]] == multiset(data)[r.value] ==>
      IndexOf(data, r.value) <= i
  {
    if data == [] then None
    else
      MostCommonChoice(data);
      var cands := Dedup(data);
      Some(cands[FirstMostCommon(cands, data)])
  }

  // ------------------------------------------------------------ match_tokens

  /** `match_tokens(tokens1, tokens2)` as written: every token of `tokens1` is
      compared with `tokens2[1]`, which raises `IndexError` for one-token lists. */
  function MatchTokensAsWritten(tokens1: seq<string>, tokens2: seq<string>): (r: Result<bool>)
    ensures |tokens1| != |tokens2| ==> r == Success(false)
    ensures r.Failure? <==> |tokens1| == |tokens2| == 1
    ensures r == Success(true) ==>
      |tokens1| == |tokens2| && forall i, j :: 0 <= i < j < |tokens1| ==> tokens1[i] == tokens1[j]
  {
    if |tokens1| != |tokens2| then Success(false)
    else if |tokens1| == 0 then Success(true)
    else if |tokens2| < 2 then Failure("IndexError")
    else Success(forall i :: 0 <= i < |tokens1| ==> tokens1[i] == tokens2[1])
  }

  /** Equal token lists of length two do not match as written. */
  lemma MatchTokensAsWrittenRejectsEqual()
    ensures MatchTokensAsWritten(["a", "b"], ["a", "b"]) == Success(false)
    ensures MatchTokensAsWritten(["a"], ["a"]).Failure?
  {
    assert ["a", "b"][0] != ["a", "b"][1];
  }

  /** `match_tokens` as evidently intended: position by position. */
  function MatchTokens(tokens1: seq<string>, tokens2: seq<string>): (r: bool)
    ensures r <==> tokens1 == tokens2
  {
    |tokens1| == |tokens2| && forall i :: 0 <= i < |tokens1| ==> tokens1[i] == tokens2[i]
  }

  // ---------------------------------------------- path2folderlist and fname

  /** The position just after the last `/` of `p`, or 0 when there is none. */
  function AfterLastSlash(p: string): (i: nat)
    ensures i <= |p| && '/' !in p[i..]
    ensures i > 0 ==> p[i - 1] == '/'
  {
    if p == [] then 0
    else if p[|p| - 1] == '/' then |p|
    else
      var i := AfterLastSlash(p[..|p| - 1]);
      assert p[i..] == p[..|p| - 1][i..] + [p[|p| - 1]];
      i
  }

  predicate AllSlashes(h: string)
  {
    forall i :: 0 <= i < |h| ==> h[i] == '/'
  }

  /** `h.rstrip('/')` */
  function RStripSlashes(h: string): (r: string)
    ensures r <= h && (r == [] || r[|r| - 1] != '/')
    ensures AllSlashes(h[|r|..])
  {
    if h == [] || h[|h| - 1] != '/' then h
    else
      var r := RStripSlashes(h[..|h| - 1]);
      assert h[|r|..] == h[..|h| - 1][|r|..] + ['/'];
      r
  }

  /** `os.path.split(p)` on POSIX: the text after the last `/`, and before it the
      head with its trailing slashes removed unless it consists of slashes only. */
  function PathSplit(p: string): (r: (string, string))
    ensures r.0 <= p && '/' !in r.1
    ensures |r.0| == |p| ==> r.0 == p && r.1 == ""
  {
    var i := AfterLastSlash(p);
    var head, tail := p[..i], p[i..];
    if head != [] && !AllSlashes(head) then (RStripSlashes(head), tail) else (head, tail)
  }

  /** The value of `os.path.split`: the tail is the longest `/`-free suffix; the
      head is the text before it, kept whole when it holds only slashes, and
      otherwise cut after its last character that is not a `/`. */
  lemma PathSplitValue(p: string)
    ensures var (head, tail) := PathSplit(p);
      |tail| <= |p| && tail == p[|p| - |tail|..] && (|tail| == |p| || p[|p| - |tail| - 1] == '/') &&
      var h := p[..|p| - |tail|];
      (AllSlashes(h) ==> head == h) &&
      (!AllSlashes(h) ==> head <= h && head != [] && head[|head| - 1] != '/' && AllSlashes(h[|head|..]))
  {
  }

  /** `os.path.split` on a bare name and on a rooted name. */
  lemma PathSplitNames()
    ensures PathSplit("abc") == ("", "abc")
    ensures PathSplit("/a") == ("/", "a")
  {
    AfterLastSlashOf("", "abc");
    assert "" + "abc" == "abc";
    AfterLastSlashOf("/", "a");
    assert "/" + "a" == "/a";
  }

  /** `os.path.split` drops the doubled slash before the tail. */
  lemma PathSplitDoubleSlash()
    ensures PathSplit("a//b") == ("a", "b")
  {
    var p, h := "a//b", "a//";
    AfterLastSlashOf(h, "b");
    assert h + "b" == p && p[..3] == h && p[3..] == "b";
    assert RStripSlashes(h) == "a" by {
      assert h[..2] == "a/" && "a/"[..1] == "a";
    }
    assert !AllSlashes(h) by {
      assert h[0] == 'a';
    }
  }

  /** A trailing slash leaves an empty tail. */
  lemma PathSplitTrailingSlash()
    ensures PathSplit("a/b/") == ("a/b", "")
  {
    var q := "a/b/";
    assert AfterLastSlash(q) == 4;
    assert q[..4] == q && q[4..] == "";
    assert RStripSlashes(q) == "a/b" by {
      assert q[..3] == "a/b";
    }
    assert !AllSlashes(q) by {
      assert q[0] == 'a';
    }
  }

  lemma {:induction false} AfterLastSlashOf(a: string, c: string)
    requires a == [] || a[|a| - 1] == '/'
    requires '/' !in c
    ensures AfterLastSlash(a + c) == |a|
  {
    if c == [] {
      assert a + c == a;
    } else {
      var ac := a + c;
      assert ac[|ac| - 1] == c[|c| - 1];
      assert ac[..|ac| - 1] == a + c[..|c| - 1];
      assert '/' !in c[..|c| - 1] by {
        assert forall k :: 0 <= k < |c| - 1 ==> c[..|c| - 1][k] == c[k];
      }
      AfterLastSlashOf(a, c[..|c| - 1]);
    }
  }

  lemma PathSplitAfter(q: string, c: string)
    requires q != [] && q[|q| - 1] != '/' && '/' !in c
    ensures PathSplit(q + "/" + c) == (q, c)
  {
    var p := q + "/" + c;
    var h := q + "/";
    assert p == h + c;
    AfterLastSlashOf(h, c);
    assert p[..|h|] == h && p[|h|..] == c;
    assert !AllSlashes(h) by {
      assert h[|q| - 1] == q[|q| - 1];
    }
    var r := RStripSlashes(h);
    assert h[..|q|] == q;
    assert r == q;
  }

  lemma WalkStep(q: string, c: string, first: string)
    requires q != [] && q[|q| - 1] != '/' && '/' !in c && c != first
    requires Walk(q, first).Some?
    ensures Walk(q + "/" + c, first) == Some(Walk(q, first).value + [c])
  {
    PathSplitAfter(q, c);
  }

  /** The folders of `path2folderlist(p, first)`, innermost last: `None` where
      `path2folderlist` loops forever, which is when a split no longer shortens the
      path (only `/`-only or empty heads remain) before `first` shows up. */
  function Walk(p: string, first: string): (r: Option<seq<string>>)
    ensures r.Some? ==> forall i :: 0 <= i < |r.value| ==> '/' !in r.value[i] && r.value[i] != first
    decreases |p|
  {
    var (head, tail) := PathSplit(p);
    if tail == first then Some([])
    else if |head| == |p| then None
    else
      match Walk(head, first)
      case None => None
      case Some(folders) => Some(folders + [tail])
  }

  /** A `first_folder` that is not on the path never ends the walk: on `/a/b`
      with `x`, the splits reach `/`, which splits into `/` and `''` forever. */
  lemma WalkMissingFolder()
    ensures Walk("/a/b", "x") == None
  {
    SplitsOfSlashAB();
  }

  /** The splits of `/a/b`: `/a` and `b`, then `/` and `a`, then `/` and `''`. */
  lemma SplitsOfSlashAB()
    ensures PathSplit("/a/b") == ("/a", "b")
    ensures PathSplit("/a") == ("/", "a")
    ensures PathSplit("/") == ("/", "")
  {
    var p, h, q := "/a/b", "/a/", "/a";
    AfterLastSlashOf(h, "b");
    assert p == h + "b" && p[..3] == h && p[3..] == "b";
    assert !AllSlashes(h) by {
      assert h[1] == 'a';
    }
    assert RStripSlashes(h) == q by {
      assert h[..2] == q;
    }
    AfterLastSlashOf("/", "a");
    assert q == "/" + "a" && q[..1] == "/" && q[1..] == "a";
    assert AfterLastSlash("/") == 1;
  }

  /** `path2folderlist(path2dir, first_folder)` on POSIX, where there is no drive:
      split off the last component until it is `first_folder`, collecting the
      others in front. */
  method Path2FolderList(path: string, firstFolder: string) returns (folders: seq<string>)
    requires Walk(path, firstFolder).Some?
    ensures folders == Walk(path, firstFolder).value
  {
    var p := path;
    folders := [];
    while true
      invariant Walk(p, firstFolder).Some?
      invariant Walk(path, firstFolder).value == Walk(p, firstFolder).value + folders
      decreases |p|
    {
      var (head, tail) := PathSplit(p);
      if tail == firstFolder {
        break;
      }
      WalkUnfold(p, firstFolder);
      Assoc(Walk(head, firstFolder).value, [tail], folders);
      folders := [tail] + folders;
      p := head;
    }
  }

  /** The walk `path2folderlist` evidently intends: it also stops, with the
      folders found so far, once a split no longer shortens the path, so a
      `first_folder` that is not on the path gives every folder. */
  function WalkToRoot(p: string, first: string): seq<string>
    decreases |p|
  {
    var (head, tail) := PathSplit(p);
    if tail == first || |head| == |p| then []
    else WalkToRoot(head, first) + [tail]
  }

  /** The corrected walk lists only folder names, never `first`. */
  lemma {:induction false} WalkToRootFolders(p: string, first: string)
    ensures forall i :: 0 <= i < |WalkToRoot(p, first)| ==>
      '/' !in WalkToRoot(p, first)[i] && WalkToRoot(p, first)[i] != first
    decreases |p|
  {
    var head, tail := PathSplit(p).0, PathSplit(p).1;
    if tail != first && |head| < |p| {
      WalkToRootFolders(head, first);
      var r, init := WalkToRoot(p, first), WalkToRoot(head, first);
      assert r == init + [tail];
      forall i | 0 <= i < |r| ensures '/' !in r[i] && r[i] != first {
        if i < |init| {
          assert r[i] == init[i];
        } else {
          assert r[i] == tail;
        }
      }
    }
  }

  /** Wherever the walk of `path2folderlist` ends, the corrected walk gives the same folders. */
  lemma {:induction false} WalkToRootAgrees(p: string, first: string)
    requires Walk(p, first).Some?
    ensures WalkToRoot(p, first) == Walk(p, first).value
    decreases |p|
  {
    var (head, tail) := PathSplit(p);
    if tail != first {
      WalkUnfold(p, first);
      WalkToRootAgrees(head, first);
    }
  }

  /** On `/a/b` with a missing `x`, the corrected walk lists both folders. */
  lemma WalkToRootMissingFolder()
    ensures WalkToRoot("/a/b", "x") == ["a", "b"]
  {
    SplitsOfSlashAB();
    assert WalkToRoot("/", "x") == [];
    assert WalkToRoot("/a", "x") == ["a"];
  }

  /** `path2folderlist` with the walk stopped at the root. */
  method Path2FolderListToRoot(path: string, firstFolder: string) returns (folders: seq<string>)
    ensures folders == WalkToRoot(path, firstFolder)
  {
    var p := path;
    folders := [];
    while true
      invariant WalkToRoot(path, firstFolder) == WalkToRoot(p, firstFolder) + folders
      decreases |p|
    {
      var (head, tail) := PathSplit(p);
      if tail == firstFolder || |head| == |p| {
        break;
      }
      Assoc(WalkToRoot(head, firstFolder), [tail], folders);
      folders := [tail] + folders;
      p := head;
    }
  }

  /** One step of the walk: a path whose last component is not `first` yields
      the folders of its head followed by that component. */
  lemma WalkUnfold(p: string, first: string)
    requires Walk(p, first).Some? && PathSplit(p).1 != first
    ensures |PathSplit(p).0| < |p| && Walk(PathSplit(p).0, first).Some?
    ensures Walk(p, first).value == Walk(PathSplit(p).0, first).value + [PathSplit(p).1]
  {
  }

  /** `"/" + c1 + "/" + c2 ...`: the components each after a slash. */
  function Slashed(cs: seq<string>): string
  {
    if cs == [] then "" else Slashed(cs[..|cs| - 1]) + "/" + cs[|cs| - 1]
  }

  /** Each component is a folder name: nonempty, without `/`, and not `first`. */
  predicate Components(cs: seq<string>, first: string)
  {
    forall i :: 0 <= i < |cs| ==> cs[i] != "" && '/' !in cs[i] && cs[i] != first
  }

  lemma AppendLast<T>(w: seq<T>, cs: seq<T>)
    requires cs != []
    ensures w + cs == (w + cs[..|cs| - 1]) + [cs[|cs| - 1]]
  {
    assert cs == cs[..|cs| - 1] + [cs[|cs| - 1]];
  }

  lemma SlashedEnd(base: string, cs: seq<string>)
    requires base != [] && base[|base| - 1] != '/'
    requires forall i :: 0 <= i < |cs| ==> cs[i] != "" && '/' !in cs[i]
    ensures var q := base + Slashed(cs); q != [] && q[|q| - 1] != '/'
  {
    if cs != [] {
      var last := cs[|cs| - 1];
      var q := base + Slashed(cs);
      assert q == base + Slashed(cs[..|cs| - 1]) + "/" + last;
      assert q[|q| - 1] == last[|last| - 1];
    }
  }

  lemma WalkExtendStep(base: string, first: string, init: seq<string>, c: string, w: seq<string>)
    requires base != [] && base[|base| - 1] != '/'
    requires forall i :: 0 <= i < |init| ==> init[i] != "" && '/' !in init[i]
    requires '/' !in c && c != first
    requires Walk(base + Slashed(init), first) == Some(w + init)
    ensures Walk(base + Slashed(init + [c]), first) == Some(w + (init + [c]))
  {
    var q := base + Slashed(init);
    SlashedEnd(base, init);
    WalkStep(q, c, first);
    PathSnoc(base, init, c);
    AppendLast(w, init + [c]);
  }

  lemma PathSnoc(base: string, init: seq<string>, c: string)
    ensures base + Slashed(init + [c]) == base + Slashed(init) + "/" + c
  {
    SlashedSnoc(init, c);
    Assoc(base, Slashed(init), "/" + c);
    assert base + Slashed(init) + "/" + c == (base + Slashed(init)) + ("/" + c);
  }

  lemma SlashedSnoc(cs: seq<string>, c: string)
    ensures Slashed(cs + [c]) == Slashed(cs) + ("/" + c)
  {
    assert (cs + [c])[..|cs|] == cs;
  }

  lemma Assoc<T>(a: seq<T>, b: seq<T>, d: seq<T>)
    ensures a + (b + d) == (a + b) + d
  {
  }

  lemma {:induction false} WalkExtend(base: string, first: string, cs: seq<string>)
    requires base != [] && base[|base| - 1] != '/' && Walk(base, first).Some?
    requires Components(cs, first)
    ensures Walk(base + Slashed(cs), first) == Some(Walk(base, first).value + cs)
  {
    var w := Walk(base, first).value;
    if cs == [] {
      assert base + Slashed(cs) == base;
      assert w + cs == w;
    } else {
      var init, c := cs[..|cs| - 1], cs[|cs| - 1];
      ComponentsInit(cs, first);
      WalkExtend(base, first, init);
      WalkExtendStep(base, first, init, c, w);
      assert init + [c] == cs;
    }
  }

  lemma ComponentsInit(cs: seq<string>, first: string)
    requires cs != [] && Components(cs, first)
    ensures Components(cs[..|cs| - 1], first)
    ensures '/' !in cs[|cs| - 1] && cs[|cs| - 1] != first
  {
    var init := cs[..|cs| - 1];
    forall i | 0 <= i < |init| ensures init[i] != "" && '/' !in init[i] && init[i] != first {
      assert init[i] == cs[i];
    }
  }

  lemma ComponentsTail(cs: seq<string>, first: string)
    requires cs != [] && Components(cs, first)
    ensures Components(cs[1..], first)
    ensures cs[0] != "" && '/' !in cs[0] && cs[0] != first
  {
    var tail := cs[1..];
    forall i | 0 <= i < |tail| ensures tail[i] != "" && '/' !in tail[i] && tail[i] != first {
      assert tail[i] == cs[i + 1];
    }
  }

  /** The root `/` ends a walk to the empty first folder. */
  lemma WalkRoot()
    ensures Walk("/", "") == Some([])
  {
    assert AfterLastSlash("/") == 1;
    assert PathSplit("/") == ("/", "");
  }

  /** `/c` yields `[c]`. */
  lemma WalkRootFolder(c: string)
    requires c != "" && '/' !in c
    ensures Walk("/" + c, "") == Some([c])
  {
    var p := "/" + c;
    AfterLastSlashOf("/", c);
    assert p[..1] == "/" && p[1..] == c;
    assert PathSplit(p) == ("/", c);
    WalkRoot();
    assert [] + [c] == [c];
  }

  /** A single relative component `c` yields `[c]`. */
  lemma WalkFolder(c: string)
    requires c != "" && '/' !in c
    ensures Walk(c, "") == Some([c])
  {
    AfterLastSlashOf("", c);
    assert "" + c == c;
    assert c[..0] == "" && c[0..] == c;
    assert PathSplit(c) == ("", c);
    assert PathSplit("") == ("", "");
    assert Walk("", "") == Some([]);
    assert [] + [c] == [c];
  }

  lemma HeadTail<T>(s: seq<T>)
    requires s != []
    ensures [s[0]] + s[1..] == s
  {
  }

  /** An absolute path `/c1/.../cn` yields its components. */
  lemma WalkAbsolute(cs: seq<string>)
    requires cs != [] && Components(cs, "")
    ensures Walk(Slashed(cs), "") == Some(cs)
  {
    var c0, rest := cs[0], cs[1..];
    var base := "/" + c0;
    assert c0 != "" && '/' !in c0 && Components(rest, "") by {
      ComponentsTail(cs, "");
    }
    assert Walk(base, "") == Some([c0]) by {
      WalkRootFolder(c0);
    }
    HeadTail(cs);
    assert Slashed(cs) == base + Slashed(rest) by {
      SlashedCons(c0, rest);
    }
    assert base[|base| - 1] == c0[|c0| - 1];
    assert Walk(base + Slashed(rest), "") == Some([c0] + rest) by {
      WalkExtend(base, "", rest);
    }
  }

  /** A relative path `c1/.../cn` yields its components. */
  lemma WalkRelative(c0: string, cs: seq<string>)
    requires Components([c0] + cs, "")
    ensures Walk(c0 + Slashed(cs), "") == Some([c0] + cs)
  {
    ComponentsTail([c0] + cs, "");
    assert ([c0] + cs)[1..] == cs;
    WalkFolder(c0);
    WalkExtend(c0, "", cs);
  }

  /** With a `first_folder`, the folders after its last occurrence are listed. */
  lemma WalkToFolder(pre: string, first: string, cs: seq<string>)
    requires pre == [] || pre[|pre| - 1] == '/'
    requires first != "" && '/' !in first && Components(cs, first)
    ensures Walk(pre + first + Slashed(cs), first) == Some(cs)
  {
    var p := pre + first;
    assert p[|pre|..] == first && p[..|pre|] == pre;
    AfterLastSlashOf(pre, first);
    assert PathSplit(p).1 == first;
    assert Walk(p, first) == Some([]);
    WalkExtend(p, first, cs);
    assert [] + cs == cs;
  }

  lemma {:induction false} SlashedCons(c: string, cs: seq<string>)
    ensures Slashed([c] + cs) == "/" + c + Slashed(cs)
  {
    if cs != [] {
      var init := cs[..|cs| - 1];
      SlashedCons(c, init);
      assert ([c] + cs)[..|cs|] == [c] + init;
    }
  }

  predicate AllDots(s: string)
  {
    forall i :: 0 <= i < |s| ==> s[i] == '.'
  }

  /** `os.path.basename(p)`: the text after the last `/`. */
  function Basename(p: string): (b: string)
    ensures |b| <= |p| && b == p[|p| - |b|..] && '/' !in b
    ensures |b| < |p| ==> p[|p| - |b| - 1] == '/'
  {
    p[AfterLastSlash(p)..]
  }

  /** The position of the last `.` of `s`, if any. */
  function LastDot(s: string): (r: Option<nat>)
    ensures r.Some? ==> r.value < |s| && s[r.value] == '.' && '.' !in s[r.value + 1..]
    ensures r.None? ==> '.' !in s
  {
    if s == [] then None
    else if s[|s| - 1] == '.' then Some(|s| - 1)
    else
      var init := s[..|s| - 1];
      var r := LastDot(init);
      if r.Some? then
        assert s[r.value] == init[r.value];
        assert s[r.value + 1..] == init[r.value + 1..] + [s[|s| - 1]];
        r
      else
        assert s == init + [s[|s| - 1]];
        r
  }

  /** `os.path.splitext(b)[0]` for a name without `/`: the name without its
      extension, where the extension starts at the last dot and leading dots
      never start one. */
  function SplitExtRoot(b: string): (r: string)
    ensures r <= b
    ensures r != b ==> b[|r|] == '.' && '.' !in b[|r| + 1..] && !AllDots(r)
    ensures r != b <==> exists i :: 0 <= i < |b| && b[i] == '.' && !AllDots(b[..i])
  {
    match LastDot(b)
    case None => b
    case Some(d) =>
      if AllDots(b[..d]) then
        assert forall i :: 0 <= i < |b| && b[i] == '.' ==> AllDots(b[..i]) by {
          forall i | 0 <= i < |b| && b[i] == '.' ensures AllDots(b[..i]) {
            assert i <= d;
            assert forall k :: 0 <= k < i ==> b[..i][k] == b[..d][k];
          }
        }
        b
      else
        b[..d]
  }

  /** `fname(path2file)`: the basename without its extension. */
  function Fname(path: string): (r: string)
    ensures r <= Basename(path) && '/' !in r
    ensures r != Basename(path) ==>
      var b := Basename(path);
      b[|r|] == '.' && '.' !in b[|r| + 1..] && !AllDots(r)
    ensures var b := Basename(path);
      r != b <==> exists i :: 0 <= i < |b| && b[i] == '.' && !AllDots(b[..i])
  {
    var b := Basename(path);
    SplitExtRootNoSlash(b);
    SplitExtRoot(b)
  }

  lemma SplitExtRootNoSlash(b: string)
    requires '/' !in b
    ensures '/' !in SplitExtRoot(b)
  {
    var r := SplitExtRoot(b);
    assert forall k :: 0 <= k < |r| ==> r[k] == b[k];
  }
}

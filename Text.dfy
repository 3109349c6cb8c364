/** The Python string primitives the analyser and the translator rely on:
    `str.strip()`, `str.split()`, `str.split(sep)`, `str.lower()`, `in`,
    slicing `[::-1]` and `int()`. */
module Text {
  import opened Wrappers

  type String = seq<char>

  /** Python's `str.isspace()`: the ASCII whitespace characters (including the
      four information separators U+001C..U+001F) and the Unicode space
      separators, line and paragraph separators. */
  const Whitespace: set<char> := {
    '\t', '\n', '\U{0B}', '\U{0C}', '\r', '\U{1C}', '\U{1D}', '\U{1E}', '\U{1F}', ' ',
    '\U{85}', '\U{A0}', '\U{1680}',
    '\U{2000}', '\U{2001}', '\U{2002}', '\U{2003}', '\U{2004}', '\U{2005}',
    '\U{2006}', '\U{2007}', '\U{2008}', '\U{2009}', '\U{200A}',
    '\U{2028}', '\U{2029}', '\U{202F}', '\U{205F}', '\U{3000}'}

  predicate IsSpace(c: char) {
    c in Whitespace
  }

  predicate IsUpper(c: char) {
    'A' <= c <= 'Z'
  }

  /** Every character of `s` is whitespace (vacuously so for the empty text). */
  predicate Blank(s: String) {
    forall k :: 0 <= k < |s| ==> IsSpace(s[k])
  }

  // ---------------------------------------------------------------- strip

  /** `s.lstrip()`: the suffix of `s` left after its leading whitespace. */
  function TrimStart(s: String): (r: String)
    ensures |r| <= |s| && r == s[|s| - |r|..]
    ensures r == [] || !IsSpace(r[0])
    ensures Blank(s[..|s| - |r|])
  {
    if s != [] && IsSpace(s[0]) then
      var r := TrimStart(s[1..]);
      SkipSpace(s, r);
      r
    else s
  }

  /** A leading whitespace character joins the blank prefix cut off the rest. */
  lemma SkipSpace(s: String, r: String)
    requires s != [] && IsSpace(s[0])
    requires |r| <= |s| - 1 && r == s[1..][|s| - 1 - |r|..] && Blank(s[1..][..|s| - 1 - |r|])
    ensures r == s[|s| - |r|..] && Blank(s[..|s| - |r|])
  {
    var rest := s[1..];
    assert rest[|rest| - |r|..] == s[|s| - |r|..];
    assert s[..|s| - |r|] == [s[0]] + rest[..|rest| - |r|];
  }

  /** `s.rstrip()`: the prefix of `s` left after its trailing whitespace; it keeps
      a leading non-whitespace character. */
  function TrimEnd(s: String): (r: String)
    ensures |r| <= |s| && r == s[..|r|]
    ensures r == [] || !IsSpace(r[|r| - 1])
    ensures Blank(s[|r|..])
    ensures s != [] && !IsSpace(s[0]) ==> r != [] && r[0] == s[0]
  {
    if s != [] && IsSpace(s[|s| - 1]) then
      var r := TrimEnd(s[..|s| - 1]);
      DropSpace(s, r);
      r
    else s
  }

  /** A trailing whitespace character joins the blank suffix cut off the rest. */
  lemma DropSpace(s: String, r: String)
    requires s != [] && IsSpace(s[|s| - 1])
    requires |r| <= |s| - 1 && r == s[..|s| - 1][..|r|] && Blank(s[..|s| - 1][|r|..])
    ensures r == s[..|r|] && Blank(s[|r|..])
  {
    var init := s[..|s| - 1];
    assert init[..|r|] == s[..|r|];
    assert s[|r|..] == init[|r|..] + [s[|s| - 1]];
  }

  /** `s.strip()`: `s` without its leading and trailing whitespace. It is what
      is left of `TrimStart(s)` (`s` less its blank prefix) once a blank suffix
      is cut off; so it is the slice of `s` between a blank prefix and a blank
      suffix. It is empty exactly when `s` is all whitespace, and otherwise
      starts and ends with a non-whitespace character. */
  function Trim(s: String): (r: String)
    ensures |r| <= |s|
    ensures r == [] <==> Blank(s)
    ensures r != [] ==> !IsSpace(r[0]) && !IsSpace(r[|r| - 1])
    ensures var t := TrimStart(s); |r| <= |t| && r == t[..|r|] && Blank(t[|r|..])
  {
    var t := TrimStart(s);
    var r := TrimEnd(t);
    StripBlank(s, t, r);
    r
  }

  /** Cutting a blank prefix off `s`, leaving `t`, and then a blank suffix off
      `t`, leaving `r`, empties `s` exactly when `s` is blank. */
  lemma StripBlank(s: String, t: String, r: String)
    requires |t| <= |s| && t == s[|s| - |t|..] && Blank(s[..|s| - |t|])
    requires t == [] || !IsSpace(t[0])
    requires t != [] ==> r != []
    requires r != [] ==> t != []
    ensures r == [] <==> Blank(s)
  {
    if t == [] {
      assert s == s[..|s|];
    } else {
      assert s[|s| - |t|] == t[0];
    }
  }

  /** Stripping twice strips nothing more. */
  lemma TrimIdempotent(s: String)
    ensures Trim(Trim(s)) == Trim(s)
  {
    var r := Trim(s);
    assert TrimStart(r) == r;
    assert TrimEnd(r) == r;
  }

  // ---------------------------------------------------------------- lower and reversal

  /** `str.lower()` on one character; only the ASCII letters are mapped. */
  function LowerChar(c: char): (d: char)
    ensures !IsUpper(d)
    ensures IsUpper(c) ==> d as int == c as int + 32
    ensures !IsUpper(c) ==> d == c
  {
    if IsUpper(c) then (c as int + 32) as char else c
  }

  function Lower(s: String): (r: String)
    ensures |r| == |s|
    ensures forall i :: 0 <= i < |s| ==> r[i] == LowerChar(s[i])
    ensures forall c :: c in r ==> !IsUpper(c)
  {
    seq(|s|, i requires 0 <= i < |s| => LowerChar(s[i]))
  }

  /** `s[::-1]`. */
  function Reverse(s: String): (r: String)
    ensures |r| == |s|
    ensures forall i :: 0 <= i < |s| ==> r[i] == s[|s| - 1 - i]
  {
    seq(|s|, i requires 0 <= i < |s| => s[|s| - 1 - i])
  }

  /** Lowering leaves a text without upper-case letters unchanged. */
  lemma LowerOfLowercase(s: String)
    requires forall i :: 0 <= i < |s| ==> !IsUpper(s[i])
    ensures Lower(s) == s
  {
  }

  // ---------------------------------------------------------------- split()

  /** The length of the run of non-whitespace characters at the front of `t`. */
  function RunLength(t: String): (n: nat)
    ensures n <= |t|
    ensures forall i :: 0 <= i < n ==> !IsSpace(t[i])
    ensures n == |t| || IsSpace(t[n])
    ensures t != [] && !IsSpace(t[0]) ==> n > 0
  {
    if t == [] || IsSpace(t[0]) then 0 else 1 + RunLength(t[1..])
  }

  /** A word of `split()`: a non-empty text without whitespace. */
  predicate IsWord(w: String) {
    w != [] && forall i :: 0 <= i < |w| ==> !IsSpace(w[i])
  }

  /** `s.split()`: the maximal runs of non-whitespace characters, in order. */
  function Words(s: String): (ws: seq<String>)
    ensures forall w :: w in ws ==> IsWord(w)
    ensures ws == [] <==> Blank(s)
    decreases |s|
  {
    var t := TrimStart(s);
    if t == [] then
      assert s == s[..|s|];
      []
    else
      assert s[|s| - |t|] == t[0];
      var n := RunLength(t);
      var head := t[..n];
      assert IsWord(head);
      var rest := Words(t[n..]);
      assert forall w :: w in [head] + rest ==> w == head || w in rest;
      [head] + rest
  }

  /** `TrimStart` removes exactly a blank prefix that is followed by a
      non-whitespace character or by the end of the text. */
  lemma TrimStartAt(s: String, i: nat)
    requires i <= |s| && Blank(s[..i]) && (i == |s| || !IsSpace(s[i]))
    ensures TrimStart(s) == s[i..]
  {
    var t := TrimStart(s);
    BlankPrefixUnique(s, i, |s| - |t|);
  }

  /** A text has only one blank prefix followed by a non-whitespace character
      or by the end. */
  lemma BlankPrefixUnique(s: String, i: nat, j: nat)
    requires i <= |s| && Blank(s[..i]) && (i == |s| || !IsSpace(s[i]))
    requires j <= |s| && Blank(s[..j]) && (j == |s| || !IsSpace(s[j]))
    ensures i == j
  {
    assert forall k :: 0 <= k < i ==> IsSpace(s[k]) by {
      forall k | 0 <= k < i ensures IsSpace(s[k]) {
        assert s[k] == s[..i][k];
      }
    }
    assert forall k :: 0 <= k < j ==> IsSpace(s[k]) by {
      forall k | 0 <= k < j ensures IsSpace(s[k]) {
        assert s[k] == s[..j][k];
      }
    }
  }

  /** `RunLength` is exactly the length of a front run that is followed by
      whitespace or by the end of the text. */
  lemma RunLengthAt(t: String, n: nat)
    requires n <= |t| && (forall i :: 0 <= i < n ==> !IsSpace(t[i]))
    requires n == |t| || IsSpace(t[n])
    ensures RunLength(t) == n
  {
  }

  /** `split()` yields the maximal non-whitespace runs in order: when `s` is a
      blank prefix of length `i`, then a word of length `n`, then whitespace or
      the end, its first word is that word and the others are the words of the
      rest. */
  lemma FirstWord(s: String, i: nat, n: nat)
    requires i + n <= |s| && Blank(s[..i]) && IsWord(s[i..i + n])
    requires i + n == |s| || IsSpace(s[i + n])
    ensures Words(s) == [s[i..i + n]] + Words(s[i + n..])
  {
    var t := s[i..];
    FrontRun(s, i, n);
    TrimStartAt(s, i);
    RunLengthAt(t, n);
    assert Words(s) == [t[..n]] + Words(t[n..]);
  }

  /** After a blank prefix of length `i`, the suffix of `s` starts with a run of
      length `n`, which is the word `s[i..i + n]`. */
  lemma FrontRun(s: String, i: nat, n: nat)
    requires i + n <= |s| && IsWord(s[i..i + n])
    requires i + n == |s| || IsSpace(s[i + n])
    ensures var t := s[i..];
      && (i == |s| || !IsSpace(s[i]))
      && (forall k :: 0 <= k < n ==> !IsSpace(t[k]))
      && (n == |t| || IsSpace(t[n]))
      && t[..n] == s[i..i + n] && t[n..] == s[i + n..]
  {
    var w, t := s[i..i + n], s[i..];
    assert s[i] == w[0];
    assert forall k :: 0 <= k < n ==> t[k] == w[k];
  }

  /** A blank gap, a word and a rest that is empty or starts with whitespace:
      `split()` and `strip().split()` both begin with that word. */
  lemma WordAfterGap(gap: String, w: String, rest: String)
    requires Blank(gap) && IsWord(w) && (rest == [] || IsSpace(rest[0]))
    ensures Words(gap + w + rest) == [w] + Words(rest)
    ensures var ws := Words(Trim(gap + w + rest)); ws != [] && ws[0] == w
  {
    var x := gap + w + rest;
    var i := |gap|;
    Cuts3(x, gap, w, rest);
    FirstWord(x, i, |w|);
    TrimStartAt(x, i);
    var r := Trim(x);
    WordKept(x[i..], w, rest, r);
    FirstWord(r, 0, |w|);
  }

  /** The cut points of `a + b + c`. */
  lemma Cuts3(x: String, a: String, b: String, c: String)
    requires x == a + b + c
    ensures x[..|a|] == a && x[|a|..|a| + |b|] == b && x[|a| + |b|..] == c
    ensures x[|a|..] == b + c
    ensures b != [] ==> x[|a|] == b[0]
    ensures c != [] ==> x[|a| + |b|] == c[0]
  {
  }

  /** Cutting a blank suffix off `w + rest`, with `w` a word and `rest` empty or
      starting with whitespace, keeps `w` and what follows it starts with
      whitespace. */
  lemma WordKept(u: String, w: String, rest: String, r: String)
    requires u == w + rest && IsWord(w) && (rest == [] || IsSpace(rest[0]))
    requires |r| <= |u| && r == u[..|r|] && Blank(u[|r|..])
    ensures |w| <= |r| && r[..0] == [] && r[0..|w|] == w
    ensures |w| == |r| || IsSpace(r[|w|])
  {
    assert forall k :: |r| <= k < |u| ==> IsSpace(u[k]) by {
      forall k | |r| <= k < |u| ensures IsSpace(u[k]) {
        assert u[k] == u[|r|..][k - |r|];
      }
    }
    assert u[|w| - 1] == w[|w| - 1];
    assert |w| < |r| ==> r[|w|] == rest[0];
    assert r[0..|w|] == u[..|w|] == w;
  }

  /** Every character of `w` occurs in `s`. */
  predicate Within(w: String, s: String) {
    forall c :: c in w ==> c in s
  }

  lemma WithinTransitive(u: String, v: String, w: String)
    requires Within(u, v) && Within(v, w)
    ensures Within(u, w)
  {
  }

  /** A slice takes its characters from the text it is cut from. */
  lemma SliceWithin(s: String, i: nat, j: nat)
    requires i <= j <= |s|
    ensures Within(s[i..j], s)
  {
    forall c | c in s[i..j] ensures c in s {
      var k :| 0 <= k < j - i && s[i..j][k] == c;
      assert s[i + k] == c;
    }
  }

  /** Every character of every word comes from the split text. */
  lemma {:induction false} WordsWithin(s: String)
    ensures forall w :: w in Words(s) ==> Within(w, s)
    decreases |s|
  {
    var t := TrimStart(s);
    if t != [] {
      var n := RunLength(t);
      var head, tail := t[..n], t[n..];
      WordsWithin(tail);
      assert Words(s) == [head] + Words(tail);
      SliceWithin(s, |s| - |t|, |s|);
      SliceWithin(t, 0, n);
      SliceWithin(t, n, |t|);
      WithinTransitive(head, t, s);
      WithinTransitive(tail, t, s);
      forall w | w in Words(s) ensures Within(w, s) {
        if w != head {
          WithinTransitive(w, tail, s);
        }
      }
    }
  }

  /** Position `i` ends a maximal non-whitespace run of `s`. */
  predicate IsRunEnd(s: String, i: int)
    requires 0 <= i < |s|
  {
    !IsSpace(s[i]) && (i == |s| - 1 || IsSpace(s[i + 1]))
  }

  /** The number of maximal non-whitespace runs of `s`, counted by their last
      characters: an independent definition of the word count. */
  function RunEnds(s: String): nat {
    if s == [] then 0 else (if IsRunEnd(s, 0) then 1 else 0) + RunEnds(s[1..])
  }

  lemma {:induction false} RunEndsAfterLeadingSpace(s: String)
    ensures RunEnds(TrimStart(s)) == RunEnds(s)
    decreases |s|
  {
    if s != [] && IsSpace(s[0]) {
      RunEndsAfterLeadingSpace(s[1..]);
    }
  }

  lemma {:induction false} RunEndsOfRun(t: String, n: nat)
    requires 0 < n <= |t|
    requires forall i :: 0 <= i < n ==> !IsSpace(t[i])
    requires n == |t| || IsSpace(t[n])
    ensures RunEnds(t) == 1 + RunEnds(t[n..])
    decreases n
  {
    if n > 1 {
      assert !IsRunEnd(t, 0);
      RunEndsOfRun(t[1..], n - 1);
      assert t[1..][n - 1..] == t[n..];
    }
  }

  /** `len(s.split())` counts the maximal non-whitespace runs of `s`. */
  lemma {:induction false} WordsCountRuns(s: String)
    ensures |Words(s)| == RunEnds(s)
    decreases |s|
  {
    var t := TrimStart(s);
    RunEndsAfterLeadingSpace(s);
    if t != [] {
      var n := RunLength(t);
      RunEndsOfRun(t, n);
      WordsCountRuns(t[n..]);
    }
  }

  lemma {:induction false} RunEndsOfAllSpace(s: String)
    requires Blank(s)
    ensures RunEnds(s) == 0
    decreases |s|
  {
    if s != [] {
      RunEndsOfAllSpace(s[1..]);
    }
  }

  // ---------------------------------------------------------------- substring search

  predicate OccursAt(s: String, pat: String, k: int) {
    0 <= k && k + |pat| <= |s| && s[k..k + |pat|] == pat
  }

  /** The first index at or after `from` where `pat` occurs in `s`. */
  function Find(s: String, pat: String, from: nat): (r: Option<nat>)
    ensures r.Some? ==> from <= r.value && OccursAt(s, pat, r.value)
    ensures r.Some? ==> forall k :: from <= k < r.value ==> !OccursAt(s, pat, k)
    ensures r.None? ==> forall k :: from <= k ==> !OccursAt(s, pat, k)
    decreases |s| - from
  {
    if from + |pat| > |s| then None
    else if OccursAt(s, pat, from) then Some(from)
    else Find(s, pat, from + 1)
  }

  /** Python's `pat in s`: `pat` occurs at some index of `s`. */
  function Contains(s: String, pat: String): (b: bool)
    ensures b <==> exists k :: OccursAt(s, pat, k)
  {
    Find(s, pat, 0).Some?
  }

  lemma OccursInSlice(s: String, start: nat, stop: nat, pat: String, k: int)
    requires start <= stop <= |s|
    requires OccursAt(s[start..stop], pat, k)
    ensures OccursAt(s, pat, start + k) && start + k + |pat| <= stop
  {
    var inner := s[start..stop][k..k + |pat|];
    var outer := s[start + k..start + k + |pat|];
    assert forall m :: 0 <= m < |pat| ==> outer[m] == inner[m];
    assert outer == inner;
  }

  /** A pattern whose first character does not occur in `s` does not occur in `s`. */
  lemma FirstCharacterAbsent(s: String, pat: String)
    requires pat != [] && pat[0] !in s
    ensures !Contains(s, pat)
  {
    forall k | 0 <= k && k + |pat| <= |s| ensures !OccursAt(s, pat, k) {
      assert s[k..k + |pat|][0] == s[k];
    }
  }

  /** `pat` starts at no index in `[a, b)` where `s` lacks its first character. */
  lemma NoOccurrenceIn(s: String, pat: String, a: int, b: int)
    requires pat != [] && forall k :: a <= k < b && 0 <= k < |s| ==> s[k] != pat[0]
    ensures forall k :: a <= k < b ==> !OccursAt(s, pat, k)
  {
    forall k | a <= k < b ensures !OccursAt(s, pat, k) {
      if 0 <= k && k + |pat| <= |s| {
        assert s[k..k + |pat|][0] == s[k];
      }
    }
  }

  /** A pattern whose first two characters never stand side by side in `s`
      does not occur in `s`. */
  lemma FirstPairAbsent(s: String, pat: String)
    requires |pat| >= 2
    requires forall k :: 0 <= k < |s| - 1 ==> s[k] != pat[0] || s[k + 1] != pat[1]
    ensures !Contains(s, pat)
  {
    forall k | 0 <= k && k + |pat| <= |s| ensures !OccursAt(s, pat, k) {
      assert s[k..k + |pat|][0] == s[k] && s[k..k + |pat|][1] == s[k + 1];
    }
  }

  /** `s.split(sep)[1]`: the piece of `s` between the first occurrence of `sep`
      and the next one after it (or the end of `s`); `None` where Python raises
      `IndexError` because `sep` does not occur. */
  function PieceAfter(s: String, sep: String): (r: Option<String>)
    requires sep != []
    ensures r.Some? <==> Contains(s, sep)
    ensures r.Some? ==>
      var start := Find(s, sep, 0).value + |sep|;
      start + |r.value| <= |s| && r.value == s[start..start + |r.value|]
    ensures r.Some? ==>
      var start := Find(s, sep, 0).value + |sep|;
      var stop := start + |r.value|;
      && (stop == |s| || OccursAt(s, sep, stop))
      && forall k :: start <= k < stop ==> !OccursAt(s, sep, k)
    ensures r.Some? ==> Within(r.value, s)
    ensures r.Some? ==> !Contains(r.value, sep)
  {
    match Find(s, sep, 0)
    case None => None
    case Some(i) =>
      var start := i + |sep|;
      var stop := match Find(s, sep, start) case None => |s| case Some(j) => j;
      var piece := s[start..stop];
      SliceWithin(s, start, stop);
      assert !Contains(piece, sep) by {
        if Contains(piece, sep) {
          var k := Find(piece, sep, 0).value;
          OccursInSlice(s, start, stop, sep, k);
          assert false;
        }
      }
      Some(piece)
  }

  /** When `sep` occurs at `i` and nowhere before, that is the occurrence
      `Find` reports. */
  lemma FirstOccurrence(q: String, sep: String, i: nat)
    requires i + |sep| <= |q| && q[i..i + |sep|] == sep
    requires forall k :: 0 <= k < i ==> !OccursAt(q, sep, k)
    ensures Find(q, sep, 0) == Some(i)
  {
    var f := Find(q, sep, 0);
    assert OccursAt(q, sep, i);
    assert f.Some?;
    assert f.value <= i;
    assert !(f.value < i);
  }

  /** `PieceAfter` once the first occurrence `i` of `sep` is known: the piece
      runs from the end of that occurrence to the next occurrence or the end. */
  lemma PieceAt(q: String, sep: String, i: nat) returns (r: String)
    requires sep != [] && Find(q, sep, 0) == Some(i)
    ensures PieceAfter(q, sep) == Some(r)
    ensures var start := i + |sep|; var stop := start + |r|;
      && stop <= |q| && r == q[start..stop]
      && (stop == |q| || OccursAt(q, sep, stop))
      && forall k :: start <= k < stop ==> !OccursAt(q, sep, k)
  {
    r := PieceAfter(q, sep).value;
  }

  /** When `sep` first occurs at `i` and no occurrence starts between its end
      and `m`, `split(sep)[1]` is `q[i + |sep|..m]` followed by a prefix of
      `q[m..]`, and by nothing when `m` is the end or another occurrence. */
  lemma PieceAfterFrom(q: String, sep: String, i: nat, m: nat) returns (rest: String)
    requires sep != [] && i + |sep| <= m <= |q| && q[i..i + |sep|] == sep
    requires forall k :: 0 <= k < i ==> !OccursAt(q, sep, k)
    requires forall k :: i + |sep| <= k < m ==> !OccursAt(q, sep, k)
    ensures PieceAfter(q, sep) == Some(q[i + |sep|..m] + rest)
    ensures |rest| <= |q| - m && rest == q[m..][..|rest|]
    ensures m == |q| || OccursAt(q, sep, m) ==> rest == []
  {
    var start := i + |sep|;
    FirstOccurrence(q, sep, i);
    var r := PieceAt(q, sep, i);
    var stop := start + |r|;
    StopBetween(q, sep, start, m, stop);
    rest := q[m..stop];
    SliceAt(q, start, m, stop, r);
  }

  /** The end `stop` of the piece lies at or after `m` when no occurrence of
      `sep` starts in `[start, m)`, and at `m` when `m` is itself the end of
      `q` or an occurrence. */
  lemma StopBetween(q: String, sep: String, start: nat, m: nat, stop: nat)
    requires start <= m <= |q| && start <= stop <= |q|
    requires forall k :: start <= k < m ==> !OccursAt(q, sep, k)
    requires stop == |q| || OccursAt(q, sep, stop)
    requires forall k :: start <= k < stop ==> !OccursAt(q, sep, k)
    ensures m <= stop
    ensures m == |q| || OccursAt(q, sep, m) ==> stop == m
  {
  }

  /** `r`, the slice of `q` from `start` to `stop`, cut at `m`. */
  lemma SliceAt(q: String, start: nat, m: nat, stop: nat, r: String)
    requires start <= m <= stop <= |q| && r == q[start..stop]
    ensures r == q[start..m] + q[m..stop]
    ensures q[m..stop] == q[m..][..stop - m]
  {
  }

  /** The cut points of `a + b + c + d`. */
  lemma Cuts(q: String, a: String, b: String, c: String, d: String)
    requires q == a + b + c + d
    ensures |a| + |b| + |c| <= |q|
    ensures q[|a|..|a| + |b|] == b && q[|a| + |b|..|a| + |b| + |c|] == c
    ensures q[|a| + |b| + |c|..] == d
  {
  }

  /** The converse of `PieceAfter`: in `pre + sep + piece + post`, where `sep`
      first occurs after `pre`, no occurrence starts inside `piece`, and `post`
      is empty or starts with `sep`, `split(sep)[1]` is `piece`. */
  lemma PieceAfterIs(q: String, sep: String, pre: String, piece: String, post: String)
    requires sep != [] && q == pre + sep + piece + post
    requires forall k :: 0 <= k < |pre| ==> !OccursAt(q, sep, k)
    requires forall k :: |pre| + |sep| <= k < |pre| + |sep| + |piece| ==> !OccursAt(q, sep, k)
    requires post == [] || OccursAt(post, sep, 0)
    ensures PieceAfter(q, sep) == Some(piece)
  {
    var m := |pre| + |sep| + |piece|;
    Cuts(q, pre, sep, piece, post);
    if post != [] {
      OccursInSlice(q, m, |q|, sep, 0);
    }
    var rest := PieceAfterFrom(q, sep, |pre|, m);
    assert q[|pre| + |sep|..m] + rest == piece;
  }

  /** In `pre + sep + head + post`, where `sep` first occurs after `pre` and no
      occurrence starts inside `head`, `split(sep)[1]` is `head` followed by a
      prefix of `post`. */
  lemma PieceAfterStartsWith(q: String, sep: String, pre: String, head: String, post: String)
    returns (rest: String)
    requires sep != [] && q == pre + sep + head + post
    requires forall k :: 0 <= k < |pre| ==> !OccursAt(q, sep, k)
    requires forall k :: |pre| + |sep| <= k < |pre| + |sep| + |head| ==> !OccursAt(q, sep, k)
    ensures PieceAfter(q, sep) == Some(head + rest)
    ensures |rest| <= |post| && rest == post[..|rest|]
  {
    var m := |pre| + |sep| + |head|;
    Cuts(q, pre, sep, head, post);
    rest := PieceAfterFrom(q, sep, |pre|, m);
  }

  // ---------------------------------------------------------------- int()

  predicate IsDigit(c: char) {
    '0' <= c <= '9'
  }

  function DigitValue(c: char): nat
    requires IsDigit(c)
  {
    c as int - '0' as int
  }

  /** The value of a string of decimal digits, most significant first. */
  function DigitsValue(d: String): nat
    requires forall i :: 0 <= i < |d| ==> IsDigit(d[i])
  {
    if d == [] then 0 else DigitsValue(d[..|d| - 1]) * 10 + DigitValue(d[|d| - 1])
  }

  /** A non-empty string of decimal digits. */
  predicate IsDigits(d: String) {
    d != [] && forall i :: 0 <= i < |d| ==> IsDigit(d[i])
  }

  /** The most digits `int()` converts: from Python 3.10.7 on, a longer decimal
      string raises `ValueError` (`sys.get_int_max_str_digits()`). */
  const MaxIntDigits := 4300

  /** `int()` of an unsigned token: the value of its digits, or `None` for an
      empty token, a non-digit or too many digits. */
  function ParseDigits(d: String): (r: Option<nat>)
    ensures r.Some? <==> IsDigits(d) && |d| <= MaxIntDigits
    ensures r.Some? ==> r.value == DigitsValue(d)
  {
    if IsDigits(d) && |d| <= MaxIntDigits then Some(DigitsValue(d)) else None
  }

  /** `int(token)` for a token without whitespace: an optional `+` or `-` sign
      followed by one to `MaxIntDigits` decimal digits; `None` where Python
      raises `ValueError`. The value is that of the digits, negated after `-`. */
  function ParseInt(t: String): (r: Option<int>)
    ensures r.Some? <==>
      var d := if t != [] && (t[0] == '+' || t[0] == '-') then t[1..] else t;
      IsDigits(d) && |d| <= MaxIntDigits
    ensures r.Some? ==>
      var d := if t[0] == '+' || t[0] == '-' then t[1..] else t;
      r.value == if t[0] == '-' then -(DigitsValue(d) as int) else DigitsValue(d) as int
  {
    if t != [] && (t[0] == '+' || t[0] == '-') then
      match ParseDigits(t[1..])
      case None => None
      case Some(m) => Some(if t[0] == '-' then -(m as int) else m as int)
    else
      ParseDigits(t)
  }

  function DigitChar(d: nat): (c: char)
    requires d < 10
    ensures IsDigit(c) && DigitValue(c) == d
  {
    ('0' as int + d) as char
  }

  /** `str(n)` for a natural number. */
  function Decimal(n: nat): (r: String)
    ensures r != [] && forall i :: 0 <= i < |r| ==> IsDigit(r[i])
  {
    if n < 10 then [DigitChar(n)] else Decimal(n / 10) + [DigitChar(n % 10)]
  }

  /** `str(n)` for any integer. */
  function IntString(n: int): (r: String)
    ensures r != [] && !IsSpace(r[0])
  {
    if n < 0 then "-" + Decimal(-n) else Decimal(n)
  }

  lemma {:induction false} DecimalValue(n: nat)
    ensures DigitsValue(Decimal(n)) == n
  {
    if n >= 10 {
      var d := Decimal(n);
      assert d[..|d| - 1] == Decimal(n / 10);
      DecimalValue(n / 10);
    }
  }

  /** `int(str(n)) == n` whenever `str(n)` is within `int()`'s digit limit, and
      `int()` refuses it otherwise. */
  lemma {:induction false} ParseIntString(n: int)
    ensures var m := if n < 0 then -n else n;
      ParseInt(IntString(n)) == if |Decimal(m)| <= MaxIntDigits then Some(n) else None
  {
    var m: nat := if n < 0 then -n else n;
    var d := Decimal(m);
    DecimalValue(m);
    assert IsDigits(d);
    assert ParseDigits(d) == if |d| <= MaxIntDigits then Some(m) else None;
    if n < 0 {
      var s := IntString(n);
      assert s[0] == '-' && s[1..] == d;
    } else {
      assert IsDigit(d[0]) && d[0] != '+' && d[0] != '-';
    }
  }

  /** A rendered integer is one word: no whitespace and no letters. */
  lemma IntStringHasNoSpace(n: int)
    ensures IsWord(IntString(n))
    ensures forall c :: c in IntString(n) ==> c == '-' || IsDigit(c)
  {
  }
}

/**
 The string primitives the chunker is built from, defined as Python defines
 them on `str`: the whitespace test behind `str.isspace`, `strip()`,
 `split(sep)`, the argument-less `split()` and `sep.join(parts)`.
 */
module Text {

  /** The characters Python's `str.isspace()` accepts; `strip()` and
      `split()` without arguments use exactly this set. */
  const Whitespace: set<char> := {
    '\t', '\n', '\U{0B}', '\U{0C}', '\r', '\U{1C}', '\U{1D}', '\U{1E}', '\U{1F}', ' ',
    '\U{85}', '\U{A0}', '\U{1680}',
    '\U{2000}', '\U{2001}', '\U{2002}', '\U{2003}', '\U{2004}', '\U{2005}',
    '\U{2006}', '\U{2007}', '\U{2008}', '\U{2009}', '\U{200A}',
    '\U{2028}', '\U{2029}', '\U{202F}', '\U{205F}', '\U{3000}'}

  predicate IsSpace(c: char) {
    c in Whitespace
  }

  predicate AllSpace(s: string) {
    forall i :: 0 <= i < |s| ==> IsSpace(s[i])
  }

  predicate NoSpace(s: string) {
    forall i :: 0 <= i < |s| ==> !IsSpace(s[i])
  }

  /** Neither end of `s` is whitespace. */
  predicate Stripped(s: string) {
    s == [] || (!IsSpace(s[0]) && !IsSpace(s[|s| - 1]))
  }

  /** A word as `split()` yields it: non-empty and free of whitespace. */
  predicate IsWord(w: string) {
    w != [] && NoSpace(w)
  }

  predicate AllWords(ws: seq<string>) {
    forall i :: 0 <= i < |ws| ==> IsWord(ws[i])
  }

  /** `sep` occurs in `s` starting at position `i`. */
  predicate OccursAt(s: string, sep: string, i: int) {
    0 <= i && i + |sep| <= |s| && s[i..i + |sep|] == sep
  }

  /** `s` contains `sep` somewhere. */
  predicate Contains(s: string, sep: string) {
    exists i :: 0 <= i <= |s| && OccursAt(s, sep, i)
  }

  // ---------------------------------------------------------------------
  // strip()

  /** Number of whitespace characters at the front of `s`. */
  function LeadingSpace(s: string): (k: nat)
    ensures k <= |s| && AllSpace(s[..k])
    ensures k == |s| || !IsSpace(s[k])
  {
    if s != [] && IsSpace(s[0]) then
      var k := 1 + LeadingSpace(s[1..]);
      assert s[..k] == [s[0]] + s[1..][..k - 1];
      k
    else
      0
  }

  /** Length of `s` without its trailing whitespace. */
  function ContentEnd(s: string): (k: nat)
    ensures k <= |s| && AllSpace(s[k..])
    ensures k == 0 || !IsSpace(s[k - 1])
  {
    if s != [] && IsSpace(s[|s| - 1]) then
      var k := ContentEnd(s[..|s| - 1]);
      assert s[k..] == s[..|s| - 1][k..] + [s[|s| - 1]];
      k
    else
      |s|
  }

  /** `s.strip()`. The result has no whitespace at either end, is empty
      exactly when `s` is all whitespace, and leaves an already stripped
      string alone; `StripRemovesEnds` says it is `s` less its ends. */
  function Strip(s: string): (r: string)
    ensures Stripped(r)
    ensures r == [] <==> AllSpace(s)
    ensures Stripped(s) ==> r == s
  {
    var i := LeadingSpace(s);
    var l := s[i..];
    var j := ContentEnd(l);
    assert j > 0 ==> l[0] == s[i] && !IsSpace(l[0]);
    assert j == 0 ==> AllSpace(s) by {
      if j == 0 {
        assert l[0..] == l;
        assert i == |s|;
        assert s[..i] == s;
      }
    }
    l[..j]
  }

  /** `strip()` removes the leading and trailing whitespace and nothing
      else: the result is the slice of `s` starting at `i`, between a
      whitespace prefix and a whitespace suffix. */
  lemma {:induction false} StripRemovesEnds(s: string) returns (i: nat)
    ensures var r := Strip(s);
      i + |r| <= |s| && s[i..i + |r|] == r && AllSpace(s[..i]) && AllSpace(s[i + |r|..])
  {
    i := LeadingSpace(s);
    var l := s[i..];
    var j := ContentEnd(l);
    assert Strip(s) == l[..j];
    assert s[i..i + j] == l[..j];
    assert s[i + j..] == l[j..];
  }

  // ---------------------------------------------------------------------
  // sep.join(parts)

  function Join(parts: seq<string>, sep: string): string {
    if |parts| == 0 then ""
    else if |parts| == 1 then parts[0]
    else parts[0] + sep + Join(parts[1..], sep)
  }

  /** The position at which `parts[i]` starts inside `Join(parts, sep)`. */
  function Offset(parts: seq<string>, sep: string, i: nat): nat
    requires i <= |parts|
  {
    if i == 0 then 0 else |parts[0]| + |sep| + Offset(parts[1..], sep, i - 1)
  }

  /** `Join` lays the parts out in order: the i-th part sits at
      `Offset(parts, sep, i)`, followed by one copy of `sep` unless it is
      the last. */
  lemma {:induction false} JoinLayout(parts: seq<string>, sep: string, i: nat)
    requires i < |parts|
    ensures var j, o := Join(parts, sep), Offset(parts, sep, i);
      o + |parts[i]| <= |j| && j[o..o + |parts[i]|] == parts[i] &&
      (i + 1 < |parts| ==> o + |parts[i]| + |sep| <= |j| && j[o + |parts[i]|..o + |parts[i]| + |sep|] == sep) &&
      (i + 1 == |parts| ==> o + |parts[i]| == |j|)
  {
    if i > 0 {
      JoinLayout(parts[1..], sep, i - 1);
      var head, tail := parts[0] + sep, Join(parts[1..], sep);
      assert Join(parts, sep) == head + tail;
      var o', n := Offset(parts[1..], sep, i - 1), |parts[i]|;
      assert parts[1..][i - 1] == parts[i];
      SliceAfter(head, tail, o', o' + n);
      if i + 1 < |parts| {
        SliceAfter(head, tail, o' + n, o' + n + |sep|);
      }
    } else if |parts| > 1 {
      assert Join(parts, sep) == parts[0] + sep + Join(parts[1..], sep);
    }
  }

  /** Slicing past a prefix is slicing the rest. */
  lemma {:induction false} SliceAfter(h: string, t: string, lo: nat, hi: nat)
    requires lo <= hi <= |t|
    ensures (h + t)[|h| + lo..|h| + hi] == t[lo..hi]
  {
  }

  // ---------------------------------------------------------------------
  // s.split(sep)

  /** `s.split(sep)` for a non-empty separator: the leftmost occurrence is
      cut first and the scan resumes after it. */
  function Split(s: string, sep: string): (r: seq<string>)
    requires sep != []
    ensures |r| >= 1
    decreases |s|
  {
    if |s| < |sep| then [s]
    else if s[..|sep|] == sep then [""] + Split(s[|sep|..], sep)
    else
      var rest := Split(s[1..], sep);
      [[s[0]] + rest[0]] + rest[1..]
  }

  /** Every piece of a whitespace string split on `sep` is whitespace. */
  lemma {:induction false} SplitOfBlank(s: string, sep: string)
    requires sep != [] && AllSpace(s)
    ensures forall i :: 0 <= i < |Split(s, sep)| ==> AllSpace(Split(s, sep)[i])
    decreases |s|
  {
    if |s| < |sep| {
    } else if s[..|sep|] == sep {
      var t := s[|sep|..];
      assert AllSpace(t) by {
        forall k | 0 <= k < |t| ensures IsSpace(t[k]) { assert t[k] == s[|sep| + k]; }
      }
      SplitOfBlank(t, sep);
      var rest := Split(t, sep);
      var r := [""] + rest;
      assert Split(s, sep) == r;
      forall i | 0 <= i < |r| ensures AllSpace(r[i]) {
        if i > 0 { assert r[i] == rest[i - 1]; }
      }
    } else {
      var t := s[1..];
      assert AllSpace(t) by {
        forall k | 0 <= k < |t| ensures IsSpace(t[k]) { assert t[k] == s[1 + k]; }
      }
      SplitOfBlank(t, sep);
      var rest := Split(t, sep);
      var r := [[s[0]] + rest[0]] + rest[1..];
      assert Split(s, sep) == r;
      forall i | 0 <= i < |r| ensures AllSpace(r[i]) {
        if i == 0 {
          forall k | 0 <= k < |r[0]| ensures IsSpace(r[0][k]) {
            if k > 0 { assert r[0][k] == rest[0][k - 1]; }
          }
        } else {
          assert r[i] == rest[i];
        }
      }
    }
  }

  /** Putting a character in front of the first part puts it in front of
      the joined string. */
  lemma {:induction false} JoinConsFirst(c: char, parts: seq<string>, sep: string)
    requires parts != []
    ensures Join([[c] + parts[0]] + parts[1..], sep) == [c] + Join(parts, sep)
  {
    var r := [[c] + parts[0]] + parts[1..];
    if |parts| > 1 {
      assert r[1..] == parts[1..];
    }
  }

  /** Joining the pieces of `split(sep)` with `sep` gives back the string. */
  lemma {:induction false} SplitJoin(s: string, sep: string)
    requires sep != []
    ensures Join(Split(s, sep), sep) == s
    decreases |s|
  {
    if |s| < |sep| {
    } else if s[..|sep|] == sep {
      SplitJoin(s[|sep|..], sep);
      var rest := Split(s[|sep|..], sep);
      assert Split(s, sep) == [""] + rest;
      assert ([""] + rest)[1..] == rest;
      assert s == sep + s[|sep|..];
    } else {
      SplitJoin(s[1..], sep);
      var rest := Split(s[1..], sep);
      assert Split(s, sep) == [[s[0]] + rest[0]] + rest[1..];
      JoinConsFirst(s[0], rest, sep);
      assert [s[0]] + s[1..] == s;
    }
  }

  /** A string without the separator splits into itself alone. */
  lemma {:induction false} SplitWithoutSeparator(s: string, sep: string)
    requires sep != [] && !Contains(s, sep)
    ensures Split(s, sep) == [s]
    decreases |s|
  {
    if |s| >= |sep| {
      assert !OccursAt(s, sep, 0);
      assert !Contains(s[1..], sep) by {
        if Contains(s[1..], sep) {
          var i :| 0 <= i <= |s[1..]| && OccursAt(s[1..], sep, i);
          assert s[1..][i..i + |sep|] == s[i + 1..i + 1 + |sep|];
          assert OccursAt(s, sep, i + 1);
        }
      }
      SplitWithoutSeparator(s[1..], sep);
      assert [s[0]] + s[1..] == s;
    }
  }

  /** Putting a character in front of a string free of `sep` keeps it free
      of `sep`, when the result begins a string `u` that does not start with
      `sep`. */
  lemma {:induction false} ConsFreeOfSeparator(c: char, t: string, sep: string, u: string)
    requires sep != [] && !Contains(t, sep)
    requires |t| + 1 <= |u| && u[..|t| + 1] == [c] + t
    requires !OccursAt(u, sep, 0)
    ensures !Contains([c] + t, sep)
  {
    var ct := [c] + t;
    forall k | 0 <= k <= |ct| ensures !OccursAt(ct, sep, k) {
      if k == 0 {
        if |sep| <= |ct| {
          assert u[0..|sep|] == ct[0..|sep|];
        }
      } else if k + |sep| <= |ct| {
        assert ct[k..k + |sep|] == t[k - 1..k - 1 + |sep|];
        assert !OccursAt(t, sep, k - 1);
      }
    }
  }

  /** No piece contains `sep`. */
  predicate PiecesFree(r: seq<string>, sep: string) {
    forall i :: 0 <= i < |r| ==> !Contains(r[i], sep)
  }

  /** No piece but the last, followed by all but the last character of
      `sep`, contains `sep`: no occurrence starts inside a piece and runs
      into the separator cut after it, so the leftmost one was always cut. */
  predicate CutsLeftmost(r: seq<string>, sep: string)
    requires sep != []
  {
    forall i :: 0 <= i < |r| - 1 ==> !Contains(r[i] + sep[..|sep| - 1], sep)
  }

  /** Two adjacent slices of `t` make up the longer prefix. */
  lemma {:induction false} PrefixExtend(t: string, a: string, b: string)
    requires |a| + |b| <= |t| && t[..|a|] == a && t[|a|..|a| + |b|] == b
    ensures t[..|a| + |b|] == a + b
  {
    assert t[..|a| + |b|] == t[..|a|] + t[|a|..|a| + |b|];
  }

  /** A prefix of `s` is its first character followed by a prefix of `s[1..]`. */
  lemma {:induction false} ConsPrefix(s: string, k: nat)
    requires k < |s|
    ensures s[..k + 1] == [s[0]] + s[1..][..k]
  {
  }

  /** The first piece of `split(sep)` begins the string, and is followed by
      `sep` when it is not the only piece. */
  lemma {:induction false} SplitFirstPiece(t: string, sep: string)
    requires sep != []
    ensures var rest := Split(t, sep); var n := |rest[0]|;
      n <= |t| && t[..n] == rest[0] &&
      (|rest| > 1 ==> n + |sep| <= |t| && t[n..n + |sep|] == sep)
  {
    var rest := Split(t, sep);
    SplitJoin(t, sep);
    JoinLayout(rest, sep, 0);
    assert Join(rest, sep)[0..|rest[0]|] == rest[0];
  }

  /** Where the first piece of `split(sep)` on `s[1..]` lies inside `s`. */
  lemma {:induction false} SplitShiftLayout(s: string, sep: string)
    requires sep != [] && s != []
    ensures var rest := Split(s[1..], sep); var n := |rest[0]|;
      n + 1 <= |s| && s[..n + 1] == [s[0]] + rest[0] &&
      (|rest| > 1 ==> n + |sep| <= |s| && s[..n + |sep|] == [s[0]] + (rest[0] + sep[..|sep| - 1]))
  {
    var t := s[1..];
    var rest := Split(t, sep);
    var n := |rest[0]|;
    SplitFirstPiece(t, sep);
    ConsPrefix(s, n);
    if |rest| > 1 {
      var short := sep[..|sep| - 1];
      assert t[n..n + |short|] == short by {
        assert t[n..n + |short|] == t[n..n + |sep|][..|short|];
      }
      PrefixExtend(t, rest[0], short);
      ConsPrefix(s, n + |short|);
    }
  }

  /** Moving a character `c` into the first piece keeps both properties,
      when the new first piece (and, if more pieces follow, the start of
      the separator after it) begins a string `s` that does not start
      with `sep`. */
  lemma {:induction false} ShiftFree(c: char, rest: seq<string>, sep: string, s: string)
    requires sep != [] && rest != []
    requires PiecesFree(rest, sep) && CutsLeftmost(rest, sep)
    requires !OccursAt(s, sep, 0)
    requires |rest[0]| + 1 <= |s| && s[..|rest[0]| + 1] == [c] + rest[0]
    requires |rest| > 1 ==> |rest[0]| + |sep| <= |s| && s[..|rest[0]| + |sep|] == [c] + (rest[0] + sep[..|sep| - 1])
    ensures PiecesFree([[c] + rest[0]] + rest[1..], sep)
    ensures CutsLeftmost([[c] + rest[0]] + rest[1..], sep)
  {
    var r := [[c] + rest[0]] + rest[1..];
    var short := sep[..|sep| - 1];
    assert PiecesFree(r, sep) by {
      ConsFreeOfSeparator(c, rest[0], sep, s);
      forall i | 1 <= i < |r| ensures !Contains(r[i], sep) { assert r[i] == rest[i]; }
    }
    assert CutsLeftmost(r, sep) by {
      if |rest| > 1 {
        ConsFreeOfSeparator(c, rest[0] + short, sep, s);
        assert r[0] + short == [c] + (rest[0] + short);
      }
      forall i | 1 <= i < |r| - 1 ensures !Contains(r[i] + short, sep) { assert r[i] == rest[i]; }
    }
  }

  /** `split(sep)` cuts at every occurrence of `sep`, leftmost first.
      Together with `SplitJoin` this determines the pieces. */
  lemma {:induction false} SplitPiecesFree(s: string, sep: string)
    requires sep != []
    ensures PiecesFree(Split(s, sep), sep)
    ensures CutsLeftmost(Split(s, sep), sep)
    decreases |s|
  {
    var r := Split(s, sep);
    if |s| < |sep| {
      assert r == [s];
    } else if s[..|sep|] == sep {
      var rest := Split(s[|sep|..], sep);
      SplitPiecesFree(s[|sep|..], sep);
      assert r == [""] + rest;
      assert |r[0] + sep[..|sep| - 1]| < |sep|;
      forall i | 1 <= i < |r| ensures r[i] == rest[i - 1] { }
    } else {
      var rest := Split(s[1..], sep);
      SplitPiecesFree(s[1..], sep);
      assert r == [[s[0]] + rest[0]] + rest[1..];
      assert !OccursAt(s, sep, 0) by { assert s[0..|sep|] == s[..|sep|]; }
      SplitShiftLayout(s, sep);
      ShiftFree(s[0], rest, sep, s);
    }
  }

  // ---------------------------------------------------------------------
  // s.split()

  /** Length of the run of non-whitespace at the front of `s`. */
  function WordEnd(s: string): (k: nat)
    ensures k <= |s| && NoSpace(s[..k])
    ensures k == |s| || IsSpace(s[k])
  {
    if s == [] || IsSpace(s[0]) then 0
    else
      var k := 1 + WordEnd(s[1..]);
      assert s[..k] == [s[0]] + s[1..][..k - 1];
      k
  }

  /** `s.split()`: the maximal runs of non-whitespace, in order. */
  function SplitWords(s: string): seq<string>
    decreases |s|
  {
    if s == [] then []
    else if IsSpace(s[0]) then SplitWords(s[1..])
    else
      var k := WordEnd(s);
      [s[..k]] + SplitWords(s[k..])
  }

  /** Every piece `split()` yields is a word. */
  lemma {:induction false} SplitWordsAreWords(s: string)
    ensures AllWords(SplitWords(s))
    decreases |s|
  {
    if s != [] {
      if IsSpace(s[0]) {
        SplitWordsAreWords(s[1..]);
      } else {
        var k := WordEnd(s);
        SplitWordsAreWords(s[k..]);
        var r := [s[..k]] + SplitWords(s[k..]);
        forall i | 0 <= i < |r| ensures IsWord(r[i]) {
          if i > 0 {
            assert r[i] == SplitWords(s[k..])[i - 1];
          }
        }
      }
    }
  }

  /** Both sides of a cut through a list of words are lists of words. */
  lemma {:induction false} AllWordsSlices(ws: seq<string>, k: nat)
    requires AllWords(ws) && k <= |ws|
    ensures AllWords(ws[..k]) && AllWords(ws[k..])
  {
    forall i | 0 <= i < k ensures IsWord(ws[..k][i]) { assert ws[..k][i] == ws[i]; }
    forall i | 0 <= i < |ws| - k ensures IsWord(ws[k..][i]) { assert ws[k..][i] == ws[k + i]; }
  }

  /** `f` applied to every element, the results concatenated in order. */
  function ConcatMap(f: string -> seq<string>, xs: seq<string>): seq<string> {
    if xs == [] then [] else ConcatMap(f, xs[..|xs| - 1]) + f(xs[|xs| - 1])
  }

  lemma {:induction false} ConcatMapAppend(f: string -> seq<string>, a: seq<string>, b: seq<string>)
    ensures ConcatMap(f, a + b) == ConcatMap(f, a) + ConcatMap(f, b)
  {
    if b == [] {
      assert a + b == a;
    } else {
      var init := b[..|b| - 1];
      ConcatMapAppend(f, a, init);
      assert (a + b)[..|a + b| - 1] == a + init;
      assert (a + b)[|a + b| - 1] == b[|b| - 1];
    }
  }

  lemma {:induction false} ConcatMapPrefix(f: string -> seq<string>, xs: seq<string>, i: nat)
    requires i < |xs|
    ensures ConcatMap(f, xs[..i + 1]) == ConcatMap(f, xs[..i]) + f(xs[i])
  {
    assert xs[..i + 1][..i] == xs[..i];
  }

  lemma {:induction false} ConcatMapCons(f: string -> seq<string>, x: string, xs: seq<string>)
    ensures ConcatMap(f, [x] + xs) == f(x) + ConcatMap(f, xs)
  {
    ConcatMapAppend(f, [x], xs);
    assert [x][..0] == [];
  }

  /** The same function as `SplitWords` (it only calls it), under a second
      name for use as the value handed to `ConcatMap`: keeping the recursive
      function itself out of function values keeps its unfolding local. */
  function Words(s: string): seq<string> {
    SplitWords(s)
  }

  /** Concatenation of the word lists of several strings. */
  function WordsOf(texts: seq<string>): seq<string> {
    ConcatMap(Words, texts)
  }

  /** A string of whitespace has no words. */
  lemma {:induction false} SplitWordsAllSpace(s: string)
    requires AllSpace(s)
    ensures SplitWords(s) == []
    decreases |s|
  {
    if s != [] {
      SplitWordsAllSpace(s[1..]);
    }
  }

  lemma {:induction false} WordEndAppend(a: string, b: string)
    requires b != [] && IsSpace(b[0])
    ensures WordEnd(a + b) == WordEnd(a)
  {
    if a == [] {
      assert a + b == b;
    } else if !IsSpace(a[0]) {
      assert (a + b)[1..] == a[1..] + b;
      WordEndAppend(a[1..], b);
    }
  }

  /** Cutting a string just before a whitespace character cuts its word list
      at the same place. */
  lemma {:induction false} SplitWordsAppend(a: string, b: string)
    requires b != [] && IsSpace(b[0])
    ensures SplitWords(a + b) == SplitWords(a) + SplitWords(b)
    decreases |a|
  {
    if a == [] {
      assert a + b == b;
    } else if IsSpace(a[0]) {
      assert (a + b)[1..] == a[1..] + b;
      SplitWordsAppend(a[1..], b);
    } else {
      var ab, k := a + b, WordEnd(a);
      WordEndAppend(a, b);
      assert ab[0] == a[0];
      assert ab[..k] == a[..k];
      assert ab[k..] == a[k..] + b;
      SplitWordsAppend(a[k..], b);
      assert SplitWords(ab) == [a[..k]] + SplitWords(a[k..] + b);
    }
  }

  /** Leading and trailing whitespace does not change the words. */
  lemma {:induction false} SplitWordsStrip(s: string)
    ensures SplitWords(Strip(s)) == SplitWords(s)
  {
    var r := Strip(s);
    var i := StripRemovesEnds(s);
    var a, b := s[..i], s[i + |r|..];
    assert s == a + (r + b);
    SplitWordsSpacePrefix(a, r + b);
    SplitWordsAllSpace(b);
    if b != [] {
      SplitWordsAppend(r, b);
    } else {
      assert r + b == r;
    }
  }

  /** The words of a `sep`-joined list are the words of the parts, in order,
      when the separator starts with whitespace. */
  lemma {:induction false} SplitWordsJoinedParts(parts: seq<string>, sep: string)
    requires sep != [] && AllSpace(sep)
    ensures SplitWords(Join(parts, sep)) == WordsOf(parts)
  {
    if |parts| >= 1 {
      ConcatMapCons(Words, parts[0], parts[1..]);
      assert [parts[0]] + parts[1..] == parts;
    }
    if |parts| == 1 {
      assert parts[1..] == [];
    } else if |parts| > 1 {
      var rest := Join(parts[1..], sep);
      assert Join(parts, sep) == parts[0] + (sep + rest);
      SplitWordsAppend(parts[0], sep + rest);
      SplitWordsSpacePrefix(sep, rest);
      SplitWordsJoinedParts(parts[1..], sep);
    }
  }

  lemma {:induction false} SplitWordsSpacePrefix(w: string, s: string)
    requires AllSpace(w)
    ensures SplitWords(w + s) == SplitWords(s)
    decreases |w|
  {
    if w != [] {
      assert (w + s)[1..] == w[1..] + s;
      SplitWordsSpacePrefix(w[1..], s);
    } else {
      assert w + s == s;
    }
  }

  /** `split()` undoes `' '.join(words)` for a list of words. */
  lemma {:induction false} SplitWordsJoin(ws: seq<string>)
    requires AllWords(ws)
    ensures SplitWords(Join(ws, " ")) == ws
    decreases |ws|
  {
    if |ws| == 1 {
      SplitWordsOneWord(ws[0]);
    } else if |ws| > 1 {
      var w, rest := ws[0], Join(ws[1..], " ");
      assert Join(ws, " ") == w + (" " + rest);
      AllWordsSlices(ws, 1);
      SplitWordsJoin(ws[1..]);
      SplitWordsWordThenSpace(w, rest);
      assert [w] + ws[1..] == ws;
    }
  }

  lemma {:induction false} SplitWordsOneWord(w: string)
    requires IsWord(w)
    ensures SplitWords(w) == [w]
  {
    assert WordEnd(w) == |w|;
    assert w[|w|..] == [];
    assert w[..|w|] == w;
  }

  /** A word, a space and a rest: the word comes first, then the words of the rest. */
  lemma {:induction false} SplitWordsWordThenSpace(w: string, rest: string)
    requires IsWord(w)
    ensures SplitWords(w + (" " + rest)) == [w] + SplitWords(rest)
  {
    SplitWordsAppend(w, " " + rest);
    SplitWordsOneWord(w);
    assert (" " + rest)[1..] == rest;
  }

  /** `' '.join(words)` of at least one word is a non-empty, stripped string. */
  lemma {:induction false} JoinWordsStripped(ws: seq<string>)
    requires ws != [] && AllWords(ws)
    ensures var j := Join(ws, " "); j != [] && Stripped(j)
  {
    if |ws| > 1 {
      assert AllWords(ws[1..]) by {
        forall i | 0 <= i < |ws[1..]| ensures IsWord(ws[1..][i]) {
          assert ws[1..][i] == ws[i + 1];
        }
      }
      JoinWordsStripped(ws[1..]);
      var rest := Join(ws[1..], " ");
      var j := ws[0] + " " + rest;
      assert Join(ws, " ") == j;
      assert j[0] == ws[0][0];
      assert j[|j| - 1] == rest[|rest| - 1];
    } else {
      assert ws[0][0] == Join(ws, " ")[0];
    }
  }
}

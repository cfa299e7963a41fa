/**
  Python `str` values as sequences of code points, with the character classes and the
  string operations that the pipeline builds its regular expressions and `str` calls from:
  `re.sub(r"\s+", " ", s)`, `s.strip()`, `s.split()`, `sep.join(parts)`, `s.startswith(p)`
  and `s.find(p)`.
 */
module Strings {
  import opened Wrappers

  /** A Unicode code point as Python stores it in a `str`: lone surrogates included. */
  type CodePoint = x: int | 0 <= x <= 0x10FFFF

  type Text = seq<CodePoint>

  /** A Dafny string literal as a Python `str`. */
  function Lit(s: string): (r: Text)
    ensures |r| == |s|
    ensures forall i :: 0 <= i < |s| ==> r[i] == s[i] as int
  {
    seq(|s|, i requires 0 <= i < |s| => s[i] as int)
  }

  const SPACE: CodePoint := 0x20
  const NEWLINE: CodePoint := 0x0A

  /** Python's whitespace: `str.isspace`, the `\s` class of `re`, and what `strip()` and `split()` remove. */
  predicate IsSpace(c: CodePoint) {
    || 0x09 <= c <= 0x0D
    || 0x1C <= c <= 0x20
    || c == 0x85 || c == 0xA0 || c == 0x1680
    || 0x2000 <= c <= 0x200A
    || c == 0x2028 || c == 0x2029 || c == 0x202F || c == 0x205F || c == 0x3000
  }

  predicate IsNonSpace(c: CodePoint) {
    !IsSpace(c)
  }

  /**
    The `\w` class of `re` on `str` patterns, restricted to the scripts the pipeline meets:
    ASCII letters, digits and `_`, the Latin letters up to U+024F, and the letters and digits
    of the Arabic block (tatweel, a modifier letter, included).
   */
  predicate IsWordChar(c: CodePoint) {
    || '0' as int <= c <= '9' as int
    || 'A' as int <= c <= 'Z' as int
    || 'a' as int <= c <= 'z' as int
    || c == '_' as int
    || c == 0xAA || c == 0xB5 || c == 0xBA
    || (0xC0 <= c <= 0x24F && c != 0xD7 && c != 0xF7)
    || 0x0620 <= c <= 0x064A
    || 0x0660 <= c <= 0x0669
    || 0x066E <= c <= 0x066F
    || 0x0671 <= c <= 0x06D3
    || c == 0x06D5
    || 0x06E5 <= c <= 0x06E6
    || 0x06EE <= c <= 0x06FC
    || c == 0x06FF
  }

  lemma WordCharIsNotSpace(c: CodePoint)
    ensures IsWordChar(c) ==> !IsSpace(c)
  {
  }

  /* ---------------------------------------------------------------------------------
     Character-wise rewriting: `re.sub("[class]", "", s)` and `re.sub("[class]", c, s)`
     --------------------------------------------------------------------------------- */

  /** `s` without the characters `drop` selects, the others kept in order. */
  function Remove(s: Text, drop: CodePoint -> bool): (r: Text)
    ensures |r| <= |s|
    ensures forall i :: 0 <= i < |r| ==> !drop(r[i])
  {
    if s == [] then []
    else (if drop(s[0]) then [] else [s[0]]) + Remove(s[1..], drop)
  }

  /** `s` with every character `hit` selects replaced by `repl`. */
  function Replace(s: Text, hit: CodePoint -> bool, repl: CodePoint): (r: Text)
    ensures |r| == |s|
    ensures forall i :: 0 <= i < |s| ==> r[i] == if hit(s[i]) then repl else s[i]
  {
    if s == [] then []
    else [if hit(s[0]) then repl else s[0]] + Replace(s[1..], hit, repl)
  }

  /** The characters of `s` that are not whitespace, in order. */
  function NonSpace(s: Text): Text {
    Remove(s, IsSpace)
  }

  predicate NoSpace(s: Text) {
    forall i :: 0 <= i < |s| ==> !IsSpace(s[i])
  }

  lemma {:induction false} RemoveAppend(a: Text, b: Text, drop: CodePoint -> bool)
    ensures Remove(a + b, drop) == Remove(a, drop) + Remove(b, drop)
  {
    if a == [] {
      assert a + b == b;
    } else {
      assert (a + b)[0] == a[0] && (a + b)[1..] == a[1..] + b;
      RemoveAppend(a[1..], b, drop);
    }
  }

  lemma {:induction false} RemoveNothing(s: Text, drop: CodePoint -> bool)
    requires forall i :: 0 <= i < |s| ==> !drop(s[i])
    ensures Remove(s, drop) == s
  {
    if s != [] {
      RemoveNothing(s[1..], drop);
    }
  }

  lemma {:induction false} RemoveEverything(s: Text, drop: CodePoint -> bool)
    requires forall i :: 0 <= i < |s| ==> drop(s[i])
    ensures Remove(s, drop) == []
  {
    if s != [] {
      RemoveEverything(s[1..], drop);
    }
  }

  /** Removing by `p` and then by `q` is removing by their union `pq`. */
  lemma {:induction false} RemoveTwice(s: Text, p: CodePoint -> bool, q: CodePoint -> bool, pq: CodePoint -> bool)
    requires forall c :: pq(c) == (p(c) || q(c))
    ensures Remove(Remove(s, p), q) == Remove(s, pq)
  {
    if s != [] {
      RemoveTwice(s[1..], p, q, pq);
      RemoveAppend(if p(s[0]) then [] else [s[0]], Remove(s[1..], p), q);
    }
  }

  /** Replacing by a character that is then removed is removing both classes. */
  lemma {:induction false} RemoveAfterReplace(s: Text, hit: CodePoint -> bool, repl: CodePoint,
                                              drop: CodePoint -> bool, both: CodePoint -> bool)
    requires drop(repl)
    requires forall c :: both(c) == (hit(c) || drop(c))
    ensures Remove(Replace(s, hit, repl), drop) == Remove(s, both)
  {
    if s != [] {
      assert Replace(s, hit, repl)[1..] == Replace(s[1..], hit, repl);
      RemoveAfterReplace(s[1..], hit, repl, drop, both);
    }
  }

  /* ---------------------------------------------------------------------------------
     `re.sub(r"\s+", " ", s)` and `s.strip()`
     --------------------------------------------------------------------------------- */

  /** Every whitespace character is a plain space and no two whitespace characters are adjacent. */
  predicate SingleSpaced(t: Text) {
    && (forall i :: 0 <= i < |t| && IsSpace(t[i]) ==> t[i] == SPACE)
    && (forall i :: 0 <= i < |t| - 1 && IsSpace(t[i]) ==> !IsSpace(t[i + 1]))
  }

  /** No whitespace at either end. */
  predicate Trimmed(t: Text) {
    t != [] ==> !IsSpace(t[0]) && !IsSpace(t[|t| - 1])
  }

  /** Trimmed and single-spaced: what `re.sub(r"\s+", " ", s).strip()` produces. */
  predicate Canonical(t: Text) {
    Trimmed(t) && SingleSpaced(t)
  }

  /**
    `re.sub(r"\s+", " ", s)`: each maximal run of whitespace becomes one space. A
    whitespace character followed by another is dropped; the last one of a run is
    written as a space.
   */
  function CollapseSpaces(s: Text): (r: Text)
    ensures |r| <= |s|
    ensures |r| == 0 <==> |s| == 0
    ensures |s| > 0 ==> (IsSpace(r[0]) <==> IsSpace(s[0]))
    ensures SingleSpaced(r)
    ensures forall i :: 0 <= i < |r| ==> r[i] == SPACE || (!IsSpace(r[i]) && r[i] in s)
  {
    if s == [] then []
    else if IsSpace(s[0]) && |s| > 1 && IsSpace(s[1]) then CollapseSpaces(s[1..])
    else if IsSpace(s[0]) then [SPACE] + CollapseSpaces(s[1..])
    else [s[0]] + CollapseSpaces(s[1..])
  }

  lemma {:induction false} CollapseSpacesKeepsSingleSpaced(s: Text)
    requires SingleSpaced(s)
    ensures CollapseSpaces(s) == s
  {
    if s != [] {
      assert SingleSpaced(s[1..]);
      CollapseSpacesKeepsSingleSpaced(s[1..]);
    }
  }

  lemma {:induction false} CollapseSpacesNonSpace(s: Text)
    ensures NonSpace(CollapseSpaces(s)) == NonSpace(s)
  {
    if s != [] {
      CollapseSpacesNonSpace(s[1..]);
      if IsSpace(s[0]) && |s| > 1 && IsSpace(s[1]) {
      } else if IsSpace(s[0]) {
        RemoveAppend([SPACE], CollapseSpaces(s[1..]), IsSpace);
      } else {
        RemoveAppend([s[0]], CollapseSpaces(s[1..]), IsSpace);
      }
    }
  }

  /** `s.lstrip()` */
  function LStrip(s: Text): (r: Text)
    ensures |r| <= |s| && r == s[|s| - |r|..]
    ensures forall i :: 0 <= i < |s| - |r| ==> IsSpace(s[i])
    ensures r != [] ==> !IsSpace(r[0])
  {
    if s != [] && IsSpace(s[0]) then LStrip(s[1..]) else s
  }

  /** `s.rstrip()` */
  function RStrip(s: Text): (r: Text)
    ensures |r| <= |s| && r == s[..|r|]
    ensures forall i :: |r| <= i < |s| ==> IsSpace(s[i])
    ensures r != [] ==> !IsSpace(r[|r| - 1])
  {
    if s != [] && IsSpace(s[|s| - 1]) then RStrip(s[..|s| - 1]) else s
  }

  /** `s.strip()` */
  function Strip(s: Text): (r: Text)
    ensures Trimmed(r)
    ensures |r| <= |s|
  {
    RStrip(LStrip(s))
  }

  /** `s.strip()` is the slice of `s` between its leading and its trailing whitespace. */
  lemma StripSlice(s: Text) returns (i: nat, j: nat)
    ensures i <= j <= |s| && Strip(s) == s[i..j]
    ensures forall k :: 0 <= k < i ==> IsSpace(s[k])
    ensures forall k :: j <= k < |s| ==> IsSpace(s[k])
  {
    var l := LStrip(s);
    var r := RStrip(l);
    i := |s| - |l|;
    j := i + |r|;
    assert l == s[i..];
    assert r == l[..|r|];
    assert l[..|r|] == s[i..j];
    forall k | j <= k < |s| ensures IsSpace(s[k]) {
      assert s[k] == l[k - i] && |r| <= k - i < |l|;
    }
  }

  /** Stripping keeps any property every character had. */
  lemma StripKeeps(s: Text, p: CodePoint -> bool)
    ensures (forall k :: 0 <= k < |s| ==> p(s[k])) ==> forall k :: 0 <= k < |Strip(s)| ==> p(Strip(s)[k])
  {
    var i, j := StripSlice(s);
    assert forall k :: 0 <= k < |Strip(s)| ==> Strip(s)[k] == s[i + k];
  }

  lemma StripKeepsTrimmed(s: Text)
    requires Trimmed(s)
    ensures Strip(s) == s
  {
  }

  lemma StripNonSpace(s: Text)
    ensures NonSpace(Strip(s)) == NonSpace(s)
  {
    var i, j := StripSlice(s);
    var mid, tail := s[i..j], s[j..];
    assert NonSpace(s) == NonSpace(s[i..]) by {
      assert s[0..] == s;
      RemoveDropsPrefix(s, IsSpace, 0, i);
    }
    assert NonSpace(s[i..]) == NonSpace(mid) + NonSpace(tail) by {
      assert s[i..] == mid + tail;
      RemoveAppend(mid, tail, IsSpace);
    }
    assert NonSpace(tail) == [] by {
      RemoveEverything(tail, IsSpace);
    }
  }

  /** `s.strip()` is empty exactly when `s` is all whitespace. */
  lemma StripEmpty(s: Text)
    ensures Strip(s) == [] <==> NoSpace(NonSpace(s)) && NonSpace(s) == []
  {
    StripNonSpace(s);
    var r := Strip(s);
    if r != [] {
      assert !IsSpace(r[0]);
      assert NonSpace(r) == [r[0]] + NonSpace(r[1..]);
    }
  }

  lemma SingleSpacedSlice(t: Text, i: nat, j: nat)
    requires SingleSpaced(t) && i <= j <= |t|
    ensures SingleSpaced(t[i..j])
  {
    var u := t[i..j];
    forall k | 0 <= k < |u| - 1 && IsSpace(u[k]) ensures !IsSpace(u[k + 1]) {
      assert u[k] == t[i + k] && u[k + 1] == t[i + k + 1];
    }
  }

  lemma StripKeepsSingleSpaced(s: Text)
    requires SingleSpaced(s)
    ensures SingleSpaced(Strip(s))
    ensures forall k :: 0 <= k < |Strip(s)| ==> Strip(s)[k] in s
  {
    var i, j := StripSlice(s);
    SingleSpacedSlice(s, i, j);
    forall k | 0 <= k < |Strip(s)| ensures Strip(s)[k] in s {
      assert Strip(s)[k] == s[i + k];
    }
  }

  /** `re.sub(r"\s+", " ", s).strip()` */
  function CollapseAndStrip(s: Text): (r: Text)
    ensures Canonical(r)
    ensures forall i :: 0 <= i < |r| ==> r[i] == SPACE || (!IsSpace(r[i]) && r[i] in s)
  {
    var c := CollapseSpaces(s);
    StripKeepsSingleSpaced(c);
    Strip(c)
  }

  /** Every non-whitespace character of the result has any property the non-whitespace characters of `s` have. */
  lemma CollapseAndStripKeeps(s: Text, p: CodePoint -> bool)
    requires forall i :: 0 <= i < |s| && !IsSpace(s[i]) ==> p(s[i])
    ensures forall i :: 0 <= i < |CollapseAndStrip(s)| ==>
              CollapseAndStrip(s)[i] == SPACE || (!IsSpace(CollapseAndStrip(s)[i]) && p(CollapseAndStrip(s)[i]))
  {
    var r := CollapseAndStrip(s);
    forall i | 0 <= i < |r| && r[i] != SPACE
      ensures !IsSpace(r[i]) && p(r[i])
    {
      var j :| 0 <= j < |s| && s[j] == r[i];
    }
  }

  lemma CollapseAndStripKeepsCanonical(s: Text)
    requires Canonical(s)
    ensures CollapseAndStrip(s) == s
  {
    CollapseSpacesKeepsSingleSpaced(s);
  }

  lemma CollapseAndStripNonSpace(s: Text)
    ensures NonSpace(CollapseAndStrip(s)) == NonSpace(s)
  {
    CollapseSpacesNonSpace(s);
    StripNonSpace(CollapseSpaces(s));
  }

  /* ---------------------------------------------------------------------------------
     Runs, `s.split()` and `sep.join(parts)`
     --------------------------------------------------------------------------------- */

  /** The end of the maximal run of `p`-characters of `s` that starts at `i`. */
  function RunEnd(s: Text, i: nat, p: CodePoint -> bool): (j: nat)
    requires i <= |s|
    ensures i <= j <= |s|
    ensures forall k :: i <= k < j ==> p(s[k])
    ensures j < |s| ==> !p(s[j])
    decreases |s| - i
  {
    if i < |s| && p(s[i]) then RunEnd(s, i + 1, p) else i
  }

  lemma RunEndIs(s: Text, i: nat, p: CodePoint -> bool, j: nat)
    requires i <= j <= |s|
    requires forall k :: i <= k < j ==> p(s[k])
    requires j < |s| ==> !p(s[j])
    ensures RunEnd(s, i, p) == j
  {
  }

  /** `s.split()`: the maximal runs of non-whitespace characters, in order. */
  function Words(s: Text): (ws: seq<Text>)
    ensures forall k :: 0 <= k < |ws| ==> ws[k] != [] && NoSpace(ws[k])
    decreases |s|
  {
    if s == [] then []
    else if IsSpace(s[0]) then Words(s[1..])
    else
      var k := RunEnd(s, 0, IsNonSpace);
      [s[..k]] + Words(s[k..])
  }

  lemma {:induction false} WordsOfSpaces(s: Text)
    requires forall i :: 0 <= i < |s| ==> IsSpace(s[i])
    ensures Words(s) == []
  {
    if s != [] {
      WordsOfSpaces(s[1..]);
    }
  }

  lemma {:induction false} WordsLeadingSpaces(sp: Text, t: Text)
    requires forall i :: 0 <= i < |sp| ==> IsSpace(sp[i])
    ensures Words(sp + t) == Words(t)
  {
    if sp == [] {
      assert sp + t == t;
    } else {
      assert (sp + t)[0] == sp[0] && (sp + t)[1..] == sp[1..] + t;
      WordsLeadingSpaces(sp[1..], t);
    }
  }

  lemma {:induction false} WordsTrailingSpaces(t: Text, sp: Text)
    requires forall i :: 0 <= i < |sp| ==> IsSpace(sp[i])
    ensures Words(t + sp) == Words(t)
    decreases |t|
  {
    var s := t + sp;
    if t == [] {
      assert s == sp;
      WordsOfSpaces(sp);
    } else if IsSpace(t[0]) {
      assert s[1..] == t[1..] + sp;
      WordsTrailingSpaces(t[1..], sp);
    } else {
      var k := RunEnd(t, 0, IsNonSpace);
      RunEndIs(s, 0, IsNonSpace, k);
      assert s[..k] == t[..k];
      assert s[k..] == t[k..] + sp;
      WordsTrailingSpaces(t[k..], sp);
    }
  }

  /** Leading whitespace brings in no word. */
  lemma {:induction false} WordsAfterLead(s: Text, i: nat)
    requires i <= |s|
    requires forall k :: 0 <= k < i ==> IsSpace(s[k])
    ensures Words(s[i..]) == Words(s)
  {
    if i == 0 {
      assert s[0..] == s;
    } else {
      assert s[1..][i - 1..] == s[i..];
      WordsAfterLead(s[1..], i - 1);
    }
  }

  /** Trailing whitespace brings in no word. */
  lemma WordsBeforeTrail(s: Text, j: nat)
    requires j <= |s|
    requires forall k :: j <= k < |s| ==> IsSpace(s[k])
    ensures Words(s[..j]) == Words(s)
  {
    var t, sp := s[..j], s[j..];
    assert t + sp == s;
    forall k | 0 <= k < |sp| ensures IsSpace(sp[k]) {
      assert sp[k] == s[j + k];
    }
    WordsTrailingSpaces(t, sp);
  }

  /** A slice with only whitespace outside it has the words of the whole text. */
  lemma WordsOfSlice(s: Text, i: nat, j: nat)
    requires i <= j <= |s|
    requires forall k :: 0 <= k < i ==> IsSpace(s[k])
    requires forall k :: j <= k < |s| ==> IsSpace(s[k])
    ensures Words(s[i..j]) == Words(s)
  {
    var rest := s[i..];
    assert Words(rest) == Words(s) by {
      WordsAfterLead(s, i);
    }
    assert Words(rest[..j - i]) == Words(rest) by {
      forall k | j - i <= k < |rest| ensures IsSpace(rest[k]) {
        assert rest[k] == s[i + k];
      }
      WordsBeforeTrail(rest, j - i);
    }
    assert rest[..j - i] == s[i..j];
  }

  /** `s.strip().split() == s.split()` */
  lemma WordsOfStrip(s: Text)
    ensures Words(Strip(s)) == Words(s)
  {
    var i, j := StripSlice(s);
    WordsOfSlice(s, i, j);
  }

  /** `sep.join(parts)` */
  function Join(sep: Text, parts: seq<Text>): Text
  {
    if |parts| == 0 then []
    else if |parts| == 1 then parts[0]
    else parts[0] + sep + Join(sep, parts[1..])
  }

  lemma {:induction false} JoinAppend(sep: Text, a: seq<Text>, b: seq<Text>)
    requires a != [] && b != []
    ensures Join(sep, a + b) == Join(sep, a) + sep + Join(sep, b)
  {
    if |a| > 1 {
      assert (a + b)[1..] == a[1..] + b;
      JoinAppend(sep, a[1..], b);
    }
  }

  /** Joining words with single spaces and splitting again gives the words back. */
  lemma {:induction false} WordsOfJoin(ws: seq<Text>)
    requires forall k :: 0 <= k < |ws| ==> ws[k] != [] && NoSpace(ws[k])
    ensures Words(Join([SPACE], ws)) == ws
  {
    if ws != [] {
      var w := ws[0];
      var rest := if |ws| == 1 then [] else [SPACE] + Join([SPACE], ws[1..]);
      assert Join([SPACE], ws) == w + rest;
      var s := w + rest;
      RunEndIs(s, 0, IsNonSpace, |w|);
      assert s[..|w|] == w && s[|w|..] == rest;
      if |ws| > 1 {
        assert rest[1..] == Join([SPACE], ws[1..]);
        WordsOfJoin(ws[1..]);
      }
    }
  }

  /** The concatenation of all parts. */
  function Concat(parts: seq<Text>): Text
  {
    if parts == [] then [] else parts[0] + Concat(parts[1..])
  }

  lemma {:induction false} ConcatAppend(a: seq<Text>, b: seq<Text>)
    ensures Concat(a + b) == Concat(a) + Concat(b)
  {
    if a == [] {
      assert a + b == b;
    } else {
      assert (a + b)[0] == a[0] && (a + b)[1..] == a[1..] + b;
      ConcatAppend(a[1..], b);
    }
  }

  lemma {:induction false} RemoveKeepsPrefix(s: Text, d: CodePoint -> bool, i: nat)
    requires i <= |s|
    requires forall k :: 0 <= k < i ==> !d(s[k])
    ensures Remove(s, d) == s[..i] + Remove(s[i..], d)
  {
    if i > 0 {
      var t := s[1..];
      assert !d(s[0]);
      assert Remove(s, d) == [s[0]] + Remove(t, d);
      RemoveKeepsPrefix(t, d, i - 1);
      assert t[..i - 1] == s[1..i] && t[i - 1..] == s[i..];
      assert s[..i] == [s[0]] + s[1..i];
    }
  }

  lemma {:induction false} RemoveDropsPrefix(s: Text, d: CodePoint -> bool, i: nat, j: nat)
    requires i <= j <= |s|
    requires forall k :: i <= k < j ==> d(s[k])
    ensures Remove(s[i..], d) == Remove(s[j..], d)
    decreases j - i
  {
    if i < j {
      assert s[i..][1..] == s[i + 1..];
      RemoveDropsPrefix(s, d, i + 1, j);
    }
  }

  lemma SplitStep(s: Text, d: CodePoint -> bool, i: nat, j: nat)
    requires i <= j <= |s|
    requires forall k :: 0 <= k < i ==> !d(s[k])
    requires forall k :: i <= k < j ==> d(s[k])
    ensures Remove(s, d) == s[..i] + Remove(s[j..], d)
  {
    RemoveKeepsPrefix(s, d, i);
    RemoveDropsPrefix(s, d, i, j);
  }

  /**
    `re.split("[d]+", s)`: the pieces between maximal runs of `d`-characters, in order; a
    leading or trailing run gives an empty first or last piece.
   */
  function SplitRuns(s: Text, d: CodePoint -> bool): (ps: seq<Text>)
    ensures |ps| >= 1
    ensures forall i, k :: 0 <= i < |ps| && 0 <= k < |ps[i]| ==> !d(ps[i][k])
    ensures Concat(ps) == Remove(s, d)
    decreases |s|
  {
    var i := RunEnd(s, 0, (c: CodePoint) => !d(c));
    if i == |s| then
      RemoveNothing(s, d);
      [s]
    else
      var j := RunEnd(s, i, d);
      SplitStep(s, d, i, j);
      [s[..i]] + SplitRuns(s[j..], d)
  }

  /* ---------------------------------------------------------------------------------
     Prefixes, suffixes and search
     --------------------------------------------------------------------------------- */

  /** `s.startswith(p)` */
  predicate StartsWith(s: Text, p: Text) {
    |p| <= |s| && s[..|p|] == p
  }

  /** `s.endswith(p)` */
  predicate EndsWith(s: Text, p: Text) {
    |p| <= |s| && s[|s| - |p|..] == p
  }

  predicate OccursAt(s: Text, pat: Text, i: nat) {
    i + |pat| <= |s| && s[i..i + |pat|] == pat
  }

  /** The first index in `[from, n)` that satisfies `p`: where a regular-expression search stops. */
  function FirstWhere(n: nat, p: nat -> bool, from: nat): (r: Option<nat>)
    requires from <= n
    ensures r.Some? ==> from <= r.value < n && p(r.value)
    ensures r.Some? ==> forall j :: from <= j < r.value ==> !p(j)
    ensures r.None? ==> forall j :: from <= j < n ==> !p(j)
    decreases n - from
  {
    if from == n then None
    else if p(from) then Some(from)
    else FirstWhere(n, p, from + 1)
  }

  /** The first index at or after `from` where `pat` occurs in `s` (`s.find(pat, from)`). */
  function FindFrom(s: Text, pat: Text, from: nat): (r: Option<nat>)
    requires from <= |s|
    ensures r.Some? ==> from <= r.value && OccursAt(s, pat, r.value)
    ensures r.Some? ==> forall j :: from <= j < r.value ==> !OccursAt(s, pat, j)
    ensures r.None? ==> forall j :: from <= j <= |s| ==> !OccursAt(s, pat, j)
    decreases |s| - from
  {
    if OccursAt(s, pat, from) then Some(from)
    else if from == |s| then None
    else FindFrom(s, pat, from + 1)
  }
}

/**
 * String primitives that app.py takes from Python: `str.isspace` (which is also
 * what `\s` matches in a `str` regex), `strip`, `re.sub(r"\s+", " ", s)`,
 * `lower`/`upper`, the `in` substring test, `splitlines` and `"\n".join`.
 */
module Text {

  /** Python's `str.isspace()`: the characters `\s` matches in a str pattern. */
  predicate IsSpace(c: char) {
    || c == ' '
    || ('\t' <= c <= '\r')
    || ('\U{1c}' <= c <= '\U{1f}')
    || c == '\U{85}' || c == '\U{a0}' || c == '\U{1680}'
    || ('\U{2000}' <= c <= '\U{200a}')
    || c == '\U{2028}' || c == '\U{2029}' || c == '\U{202f}' || c == '\U{205f}' || c == '\U{3000}'
  }

  /** The characters at which `str.splitlines()` ends a line. */
  predicate IsLineBreak(c: char) {
    || c == '\n' || c == '\r' || c == '\U{0b}' || c == '\U{0c}'
    || ('\U{1c}' <= c <= '\U{1e}')
    || c == '\U{85}' || c == '\U{2028}' || c == '\U{2029}'
  }

  predicate IsAsciiUpper(c: char) { 'A' <= c <= 'Z' }
  predicate IsAsciiLower(c: char) { 'a' <= c <= 'z' }
  predicate IsDigit(c: char) { '0' <= c <= '9' }

  function LowerChar(c: char): char {
    if IsAsciiUpper(c) then (c as int + 32) as char else c
  }

  function UpperChar(c: char): char {
    if IsAsciiLower(c) then (c as int - 32) as char else c
  }

  /** `str.lower()` on the ASCII letters. */
  function Lower(s: string): (r: string)
    ensures |r| == |s|
    ensures forall i :: 0 <= i < |s| ==> r[i] == LowerChar(s[i])
  {
    seq(|s|, i requires 0 <= i < |s| => LowerChar(s[i]))
  }

  /** `str.upper()` on the ASCII letters. */
  function Upper(s: string): (r: string)
    ensures |r| == |s|
    ensures forall i :: 0 <= i < |s| ==> r[i] == UpperChar(s[i])
  {
    seq(|s|, i requires 0 <= i < |s| => UpperChar(s[i]))
  }

  /** Upper-casing keeps every letter, up to case: it changes nothing `lower` would see. */
  lemma UpperSameLetters(s: string)
    ensures Lower(Upper(s)) == Lower(s)
  {
    assert forall i :: 0 <= i < |s| ==> LowerChar(UpperChar(s[i])) == LowerChar(s[i]);
  }

  /**
   * The upper-cased string is the only one with no lower-case letter that
   * lower-cases to the same string.
   */
  lemma UpperUnique(t: string, s: string)
    requires forall i :: 0 <= i < |t| ==> !IsAsciiLower(t[i])
    requires Lower(t) == Lower(s)
    ensures t == Upper(s)
  {
    assert |t| == |s|;
    forall i | 0 <= i < |t|
      ensures t[i] == Upper(s)[i]
    {
      assert LowerChar(t[i]) == LowerChar(s[i]);
    }
  }

  /** Number of whitespace characters at the front of `s`. */
  function LeadingSpaces(s: string): (n: nat)
    ensures n <= |s|
    ensures forall i :: 0 <= i < n ==> IsSpace(s[i])
    ensures n == |s| || !IsSpace(s[n])
  {
    if s == [] || !IsSpace(s[0]) then 0 else 1 + LeadingSpaces(s[1..])
  }

  /** A single space before a non-space character is one leading space. */
  lemma OneLeadingSpace(v: string)
    requires |v| >= 2 && v[0] == ' ' && !IsSpace(v[1])
    ensures LeadingSpaces(v) == 1
  {
    assert v[1..][0] == v[1];
  }

  /** Number of whitespace characters at the end of `s`. */
  function TrailingSpaces(s: string): (n: nat)
    ensures n <= |s|
    ensures forall i :: |s| - n <= i < |s| ==> IsSpace(s[i])
    ensures n == |s| || !IsSpace(s[|s| - 1 - n])
  {
    if s == [] || !IsSpace(s[|s| - 1]) then 0 else 1 + TrailingSpaces(s[..|s| - 1])
  }

  /** `str.strip()`: the slice of `s` between its leading and trailing whitespace. */
  function Strip(s: string): (r: string)
    ensures Trimmed(r)
    ensures |r| <= |s| - LeadingSpaces(s) && r == s[LeadingSpaces(s)..LeadingSpaces(s) + |r|]
    ensures Trimmed(s) ==> r == s
  {
    var t := s[LeadingSpaces(s)..];
    t[..|t| - TrailingSpaces(t)]
  }

  /** The string neither starts nor ends with whitespace. */
  predicate Trimmed(s: string) {
    s == [] || (!IsSpace(s[0]) && !IsSpace(s[|s| - 1]))
  }

  /** A suffix of a trimmed string that starts at a non-space is trimmed. */
  lemma SuffixTrimmed(s: string, n: nat)
    requires Trimmed(s) && n <= |s|
    requires n == 0 || n == |s| || !IsSpace(s[n])
    ensures Trimmed(s[n..])
  {
    if n < |s| {
      assert s[n..][0] == s[n];
      assert s[n..][|s| - n - 1] == s[|s| - 1];
    }
  }

  /** Every whitespace character is a plain space and no two spaces touch. */
  predicate SingleSpaced(s: string) {
    && (forall i :: 0 <= i < |s| && IsSpace(s[i]) ==> s[i] == ' ')
    && (forall i :: 0 <= i < |s| - 1 ==> !(s[i] == ' ' && s[i + 1] == ' '))
  }

  /** A slice of a single-spaced string is single-spaced. */
  lemma SingleSpacedSlice(s: string, a: nat, b: nat)
    requires SingleSpaced(s) && a <= b <= |s|
    ensures SingleSpaced(s[a..b])
  {
    var t := s[a..b];
    assert forall i :: 0 <= i < |t| ==> t[i] == s[a + i];
  }

  /** Stripping a single-spaced string keeps it single-spaced. */
  lemma SingleSpacedStrip(s: string)
    requires SingleSpaced(s)
    ensures SingleSpaced(Strip(s))
  {
    var l := LeadingSpaces(s);
    SingleSpacedSlice(s, l, l + |Strip(s)|);
  }

  /** The characters of `s` that are not whitespace, in order. */
  function NonSpace(s: string): string {
    if s == [] then [] else (if IsSpace(s[0]) then [] else [s[0]]) + NonSpace(s[1..])
  }

  /** Stripping removes only whitespace. */
  lemma NonSpaceStrip(s: string)
    ensures NonSpace(Strip(s)) == NonSpace(s)
  {
    NonSpaceDropLeading(s);
    NonSpaceDropTrailing(s[LeadingSpaces(s)..]);
  }

  /** Dropping the leading whitespace keeps the non-space characters. */
  lemma NonSpaceDropLeading(s: string)
    ensures NonSpace(s[LeadingSpaces(s)..]) == NonSpace(s)
  {
    var l := LeadingSpaces(s);
    assert s == s[..l] + s[l..];
    NonSpaceAfterSpaces(s[..l], s[l..]);
  }

  /** Dropping the trailing whitespace keeps the non-space characters. */
  lemma NonSpaceDropTrailing(t: string)
    ensures NonSpace(t[..|t| - TrailingSpaces(t)]) == NonSpace(t)
  {
    var n := |t| - TrailingSpaces(t);
    TrailingSplit(t);
    NonSpaceBeforeSpaces(t[..n], t[n..]);
  }

  /** A string is its text up to the trailing whitespace, then that whitespace. */
  lemma TrailingSplit(t: string)
    ensures var n := |t| - TrailingSpaces(t);
      t == t[..n] + t[n..] && forall i :: 0 <= i < |t[n..]| ==> IsSpace(t[n..][i])
  {
    var n := |t| - TrailingSpaces(t);
    assert forall i :: 0 <= i < |t[n..]| ==> t[n..][i] == t[n + i];
  }

  /** Leading whitespace adds nothing to `NonSpace`. */
  lemma NonSpaceAfterSpaces(a: string, b: string)
    requires forall i :: 0 <= i < |a| ==> IsSpace(a[i])
    ensures NonSpace(a + b) == NonSpace(b)
  {
    NonSpaceOfSpaces(a);
    NonSpaceAppend(a, b);
  }

  /** Trailing whitespace adds nothing to `NonSpace`. */
  lemma NonSpaceBeforeSpaces(a: string, c: string)
    requires forall i :: 0 <= i < |c| ==> IsSpace(c[i])
    ensures NonSpace(a + c) == NonSpace(a)
  {
    NonSpaceOfSpaces(c);
    NonSpaceAppend(a, c);
    assert NonSpace(a) + [] == NonSpace(a);
  }

  /** A trimmed string is empty exactly when it has no non-space character. */
  lemma TrimmedNonSpace(s: string)
    requires Trimmed(s)
    ensures s == [] <==> NonSpace(s) == []
  {
    if s != [] {
      NonSpaceCons(s);
    }
  }

  /** `re.sub(r"\s+", " ", s)`: each maximal run of whitespace becomes one space. */
  function CollapseSpaces(s: string): (r: string)
    ensures SingleSpaced(r)
    ensures NonSpace(r) == NonSpace(s)
    ensures (r == []) == (s == [])
    ensures s != [] ==> (IsSpace(s[0]) <==> r[0] == ' ')
    decreases |s|
  {
    if s == [] then []
    else if IsSpace(s[0]) then
      var n := LeadingSpaces(s);
      var rest := CollapseSpaces(s[n..]);
      SpaceRun(s);
      assert n < |s| ==> s[n..][0] == s[n];
      ConsFacts(' ', rest);
      [' '] + rest
    else
      var rest := CollapseSpaces(s[1..]);
      assert s[0] != ' ';
      ConsFacts(s[0], rest);
      NonSpaceCons(s);
      [s[0]] + rest
  }

  /** A leading run of whitespace adds nothing to `NonSpace`. */
  lemma SpaceRun(s: string)
    requires s != [] && IsSpace(s[0])
    ensures NonSpace(s) == NonSpace(s[LeadingSpaces(s)..])
  {
    var n := LeadingSpaces(s);
    NonSpaceOfSpaces(s[..n]);
    assert s == s[..n] + s[n..];
    NonSpaceAppend(s[..n], s[n..]);
  }

  lemma NonSpaceCons(s: string)
    requires s != []
    ensures NonSpace(s) == (if IsSpace(s[0]) then [] else [s[0]]) + NonSpace(s[1..])
  {
  }

  /** What putting `c` in front of a collapsed string does to its shape. */
  lemma ConsFacts(c: char, r: string)
    requires SingleSpaced(r)
    requires IsSpace(c) ==> c == ' '
    requires c == ' ' && r != [] ==> r[0] != ' '
    ensures SingleSpaced([c] + r)
    ensures NonSpace([c] + r) == (if IsSpace(c) then [] else [c]) + NonSpace(r)
    ensures ([c] + r)[0] == c
  {
    var u := [c] + r;
    assert u[1..] == r;
    forall i | 0 <= i < |u| - 1
      ensures !(u[i] == ' ' && u[i + 1] == ' ')
    {
      if i > 0 {
        assert u[i] == r[i - 1] && u[i + 1] == r[i];
      }
    }
  }

  /** The collapsed string ends in a space exactly when the original ends in whitespace. */
  lemma {:induction false} CollapseLast(s: string)
    requires s != []
    ensures IsSpace(s[|s| - 1]) <==> CollapseSpaces(s)[|CollapseSpaces(s)| - 1] == ' '
    decreases |s|
  {
    var n := CollapseUnfold(s);
    var rest := CollapseSpaces(s[n..]);
    if n == |s| {
      assert rest == [];
    } else {
      CollapseLast(s[n..]);
      LastOfSuffix(s, n);
      LastOfCons(if IsSpace(s[0]) then ' ' else s[0], rest);
    }
  }

  /** One step of `CollapseSpaces`: the first run (or character) becomes one character. */
  lemma CollapseUnfold(s: string) returns (n: nat)
    requires s != []
    ensures 1 <= n <= |s|
    ensures n < |s| ==> !IsSpace(s[n]) || !IsSpace(s[0])
    ensures n == |s| ==> (IsSpace(s[|s| - 1]) <==> IsSpace(s[0]))
    ensures CollapseSpaces(s) == [if IsSpace(s[0]) then ' ' else s[0]] + CollapseSpaces(s[n..])
  {
    n := if IsSpace(s[0]) then LeadingSpaces(s) else 1;
  }

  lemma LastOfCons(c: char, r: string)
    requires r != []
    ensures ([c] + r)[|r|] == r[|r| - 1]
  {
  }

  lemma LastOfSuffix(s: string, n: nat)
    requires n <= |s|
    ensures n < |s| ==> s[n..][|s| - n - 1] == s[|s| - 1]
  {
  }

  lemma {:induction false} NonSpaceAppend(a: string, b: string)
    ensures NonSpace(a + b) == NonSpace(a) + NonSpace(b)
  {
    if a != [] {
      var head := if IsSpace(a[0]) then [] else [a[0]];
      assert (a + b)[0] == a[0];
      assert (a + b)[1..] == a[1..] + b;
      NonSpaceAppend(a[1..], b);
      calc {
        NonSpace(a + b);
        head + NonSpace(a[1..] + b);
        head + (NonSpace(a[1..]) + NonSpace(b));
        (head + NonSpace(a[1..])) + NonSpace(b);
      }
    } else {
      assert a + b == b;
    }
  }

  lemma {:induction false} NonSpaceOfSpaces(a: string)
    requires forall i :: 0 <= i < |a| ==> IsSpace(a[i])
    ensures NonSpace(a) == []
  {
    if a != [] {
      NonSpaceOfSpaces(a[1..]);
    }
  }

  /** Collapsing whitespace leaves an already single-spaced string as it is. */
  lemma {:induction false} CollapseSingleSpaced(s: string)
    requires SingleSpaced(s)
    ensures CollapseSpaces(s) == s
    decreases |s|
  {
    if s != [] {
      SingleSpacedSlice(s, 1, |s|);
      CollapseSingleSpaced(s[1..]);
      if IsSpace(s[0]) {
        assert |s| == 1 || !IsSpace(s[1]);
        assert LeadingSpaces(s) == 1;
      }
      assert s == [s[0]] + s[1..];
    }
  }

  /** The string holds no whitespace character. */
  predicate NoSpace(w: string) {
    forall i :: 0 <= i < |w| ==> !IsSpace(w[i])
  }

  /**
   * `str.split()` with no argument: the maximal runs of non-whitespace
   * characters, in order. A non-space character joins the word that starts
   * right after it, or forms a word of its own when whitespace or the end follows.
   */
  function Words(s: string): (ws: seq<string>)
    ensures forall k :: 0 <= k < |ws| ==> ws[k] != [] && NoSpace(ws[k])
    ensures s != [] && !IsSpace(s[0]) ==> ws != [] && ws[0][0] == s[0]
  {
    if s == [] then []
    else if IsSpace(s[0]) then Words(s[1..])
    else AddChar(s[0], Words(s[1..]), |s| == 1 || IsSpace(s[1]))
  }

  /** `[c] + x` split into words, from the words of `x`: `c` starts a word of its own or joins the first one. */
  function AddChar(c: char, ws: seq<string>, apart: bool): (r: seq<string>)
    requires !IsSpace(c)
    requires forall k :: 0 <= k < |ws| ==> ws[k] != [] && NoSpace(ws[k])
    ensures forall k :: 0 <= k < |r| ==> r[k] != [] && NoSpace(r[k])
    ensures r != [] && r[0][0] == c
  {
    if apart || ws == [] then [[c]] + ws
    else
      var w := [c] + ws[0];
      assert forall i :: 1 <= i < |w| ==> w[i] == ws[0][i - 1];
      assert ws[0] != [] && NoSpace(ws[0]);
      assert NoSpace(w);
      var r := [w] + ws[1..];
      assert forall k :: 1 <= k < |r| ==> r[k] == ws[k];
      r
  }

  /** `" ".join(ws)`. */
  function JoinWords(ws: seq<string>): string {
    if ws == [] then [] else if |ws| == 1 then ws[0] else ws[0] + " " + JoinWords(ws[1..])
  }

  /** A whitespace character in front adds no word. */
  lemma WordsSpace(c: char, x: string)
    requires IsSpace(c)
    ensures Words([c] + x) == Words(x)
  {
    assert ([c] + x)[1..] == x;
  }

  /** A non-space character in front joins the first word, or starts one when `x` starts with whitespace. */
  lemma WordsCons(c: char, x: string)
    requires !IsSpace(c)
    ensures Words([c] + x) == AddChar(c, Words(x), x == [] || IsSpace(x[0]))
  {
    assert ([c] + x)[1..] == x;
  }

  /** Dropping leading whitespace keeps the words. */
  lemma {:induction false} WordsDropSpaces(s: string, n: nat)
    requires n <= LeadingSpaces(s)
    ensures Words(s[n..]) == Words(s)
  {
    if n > 0 {
      WordsDropSpaces(s, n - 1);
      assert s[n - 1..] == [s[n - 1]] + s[n..];
      WordsSpace(s[n - 1], s[n..]);
    }
  }

  /** Appending whitespace keeps the words. */
  lemma {:induction false} WordsAppendSpaces(a: string, b: string)
    requires forall i :: 0 <= i < |b| ==> IsSpace(b[i])
    ensures Words(a + b) == Words(a)
    decreases |a|
  {
    if a == [] {
      assert a + b == b;
      WordsOfSpaces(b);
    } else {
      assert a + b == [a[0]] + (a[1..] + b);
      assert a == [a[0]] + a[1..];
      WordsAppendSpaces(a[1..], b);
      if IsSpace(a[0]) {
        WordsSpace(a[0], a[1..] + b);
        WordsSpace(a[0], a[1..]);
      } else {
        WordsCons(a[0], a[1..] + b);
        WordsCons(a[0], a[1..]);
        if a[1..] == [] {
          assert a[1..] + b == b;
        } else {
          assert (a[1..] + b)[0] == a[1];
        }
      }
    }
  }

  /** A string of whitespace has no words. */
  lemma {:induction false} WordsOfSpaces(b: string)
    requires forall i :: 0 <= i < |b| ==> IsSpace(b[i])
    ensures Words(b) == []
  {
    if b != [] {
      WordsOfSpaces(b[1..]);
    }
  }

  /** Stripping keeps the words. */
  lemma WordsStrip(s: string)
    ensures Words(Strip(s)) == Words(s)
  {
    WordsDropSpaces(s, LeadingSpaces(s));
    WordsDropTrailing(s[LeadingSpaces(s)..]);
  }

  lemma WordsDropTrailing(t: string)
    ensures Words(t[..|t| - TrailingSpaces(t)]) == Words(t)
  {
    var n := |t| - TrailingSpaces(t);
    TrailingSplit(t);
    WordsAppendSpaces(t[..n], t[n..]);
  }

  /** Collapsing whitespace keeps the words: `re.sub(r"\s+", " ", s).split() == s.split()`. */
  lemma {:induction false} CollapseWords(s: string)
    ensures Words(CollapseSpaces(s)) == Words(s)
    decreases |s|
  {
    if s != [] {
      if IsSpace(s[0]) {
        var n := LeadingSpaces(s);
        var rest := CollapseSpaces(s[n..]);
        assert CollapseSpaces(s) == [' '] + rest;
        CollapseWords(s[n..]);
        WordsSpace(' ', rest);
        WordsDropSpaces(s, n);
      } else {
        var rest := CollapseSpaces(s[1..]);
        assert CollapseSpaces(s) == [s[0]] + rest;
        CollapseWords(s[1..]);
        WordsCons(s[0], rest);
        WordsCons(s[0], s[1..]);
        assert s == [s[0]] + s[1..];
      }
    }
  }

  /** Putting `c` in front of the first word puts it in front of the joined text. */
  lemma JoinWordsAddChar(c: char, ws: seq<string>)
    requires ws != []
    ensures JoinWords([[c] + ws[0]] + ws[1..]) == [c] + JoinWords(ws)
  {
    var v := [[c] + ws[0]] + ws[1..];
    assert v[1..] == ws[1..];
    if |ws| > 1 {
      assert ([c] + ws[0]) + " " + JoinWords(ws[1..]) == [c] + (ws[0] + " " + JoinWords(ws[1..]));
    }
  }

  /** A trimmed, single-spaced string is its words joined by single spaces. */
  lemma {:induction false} TrimmedJoinWords(r: string)
    requires Trimmed(r) && SingleSpaced(r)
    ensures r == JoinWords(Words(r))
    decreases |r|
  {
    if r != [] {
      var c := r[0];
      var x := r[1..];
      assert r == [c] + x;
      WordsCons(c, x);
      if x == [] {
        assert Words(x) == [];
      } else if !IsSpace(x[0]) {
        SuffixTrimmed(r, 1);
        SingleSpacedSlice(r, 1, |r|);
        TrimmedJoinWords(x);
        JoinWordsAddChar(c, Words(x));
      } else {
        assert r[1] == ' ' && |r| >= 3 && !IsSpace(r[2]);
        var y := r[2..];
        assert x == [x[0]] + y;
        WordsSpace(x[0], y);
        SuffixTrimmed(r, 2);
        SingleSpacedSlice(r, 2, |r|);
        TrimmedJoinWords(y);
        var v := [[c]] + Words(y);
        assert v[1..] == Words(y);
      }
    }
  }

  /** " " when `s` starts with whitespace, else "". */
  function LeadSpace(s: string): string {
    if s != [] && IsSpace(s[0]) then " " else ""
  }

  /** " " when `s` ends with whitespace, else "". */
  function TrailSpace(s: string): string {
    if s != [] && IsSpace(s[|s| - 1]) then " " else ""
  }

  /** A string has no words exactly when it is all whitespace. */
  lemma {:induction false} WordsNone(s: string)
    ensures Words(s) == [] <==> forall i :: 0 <= i < |s| ==> IsSpace(s[i])
  {
    if s != [] {
      WordsNone(s[1..]);
      assert forall i :: 1 <= i < |s| ==> s[i] == s[1..][i - 1];
    }
  }

  /**
   * The value of `re.sub(r"\s+", " ", s)`: the words of `s` joined by single
   * spaces, with one space in front when `s` starts with whitespace and one
   * behind when it ends with whitespace; whitespace alone becomes one space.
   */
  lemma CollapseSpacesValue(s: string)
    ensures CollapseSpaces(s) ==
      if Words(s) == [] then (if s == [] then "" else " ")
      else LeadSpace(s) + JoinWords(Words(s)) + TrailSpace(s)
  {
    var c := CollapseSpaces(s);
    CollapseWords(s);
    WordsNone(c);
    if Words(s) == [] {
      assert forall i :: 0 <= i < |c| ==> c[i] == ' ';
      if s != [] {
        assert c == [c[0]];
      }
    } else {
      assert LeadingSpaces(c) < |c|;
      SingleSpacedEnds(c);
      SingleSpacedStrip(c);
      TrimmedJoinWords(Strip(c));
      WordsStrip(c);
      CollapseLast(s);
    }
  }

  /** A single-spaced string with a non-space character is its stripped core with at most one space on each side. */
  lemma SingleSpacedEnds(r: string)
    requires SingleSpaced(r) && LeadingSpaces(r) < |r|
    ensures r == LeadSpace(r) + Strip(r) + TrailSpace(r)
  {
    var l := LeadingSpaces(r);
    var n := |r[l..]| - TrailingSpaces(r[l..]);
    SingleSpacedLead(r);
    SingleSpacedStripTrail(r);
    SplitThree(r, l, n);
  }

  /** What stripping cuts off the end of a single-spaced string is at most one space. */
  lemma SingleSpacedStripTrail(r: string)
    requires SingleSpaced(r) && LeadingSpaces(r) < |r|
    ensures var t := r[LeadingSpaces(r)..]; t[|t| - TrailingSpaces(t)..] == TrailSpace(r)
  {
    var t := r[LeadingSpaces(r)..];
    SingleSpacedSlice(r, LeadingSpaces(r), |r|);
    SingleSpacedTrail(t);
    assert t[|t| - 1] == r[|r| - 1];
  }

  /** `r` cut at `l` and then `n` characters further. */
  lemma SplitThree(r: string, l: nat, n: nat)
    requires l + n <= |r|
    ensures r == r[..l] + r[l..][..n] + r[l..][n..]
  {
    var t := r[l..];
    assert t[..n] + t[n..] == t;
    ConcatAssoc(r[..l], t[..n], t[n..]);
  }

  lemma ConcatAssoc(a: string, b: string, c: string)
    ensures a + b + c == a + (b + c)
  {
  }

  /** A single-spaced string with a non-space character starts with at most one space. */
  lemma SingleSpacedLead(r: string)
    requires SingleSpaced(r) && LeadingSpaces(r) < |r|
    ensures r[..LeadingSpaces(r)] == LeadSpace(r)
  {
    var l := LeadingSpaces(r);
    assert forall i :: 0 <= i < l ==> r[i] == ' ';
  }

  lemma SingleSpacedEnd(t: string)
    requires SingleSpaced(t) && |t| >= 2
    ensures !(t[|t| - 2] == ' ' && t[|t| - 1] == ' ')
  {
  }

  /** A non-empty single-spaced string ends with at most one space. */
  lemma SingleSpacedTrail(t: string)
    requires SingleSpaced(t) && t != []
    ensures t[|t| - TrailingSpaces(t)..] == TrailSpace(t)
  {
    var m := TrailingSpaces(t);
    if m > 0 {
      assert t[|t| - 1] == ' ';
      if |t| >= 2 {
        SingleSpacedEnd(t);
      }
      assert m == 1;
      assert t[|t| - 1..] == [t[|t| - 1]];
    }
  }

  /** Python's `k in t` for strings. */
  predicate Contains(t: string, k: string) {
    exists i :: 0 <= i <= |t| - |k| && OccursAt(t, k, i)
  }

  /** `k` occurs in `t` starting at index `i`. */
  predicate OccursAt(t: string, k: string, i: int)
    requires 0 <= i <= |t| - |k|
  {
    t[i..i + |k|] == k
  }

  /** What occurs in a suffix occurs in the whole text. */
  lemma ContainsInSuffix(t: string, n: nat, k: string)
    requires n <= |t|
    ensures Contains(t[n..], k) ==> Contains(t, k)
  {
    if Contains(t[n..], k) {
      var j :| 0 <= j <= |t[n..]| - |k| && OccursAt(t[n..], k, j);
      assert t[n..][j..j + |k|] == t[n + j..n + j + |k|];
      assert OccursAt(t, k, n + j);
    }
  }

  /** Index of the first line break in `s`, or `|s|`. */
  function BreakIndex(s: string): (n: nat)
    ensures n <= |s|
    ensures forall i :: 0 <= i < n ==> !IsLineBreak(s[i])
    ensures n == |s| || IsLineBreak(s[n])
  {
    if s == [] || IsLineBreak(s[0]) then 0 else 1 + BreakIndex(s[1..])
  }

  /** The line has no line-break character. */
  predicate NoBreaks(line: string) {
    forall i :: 0 <= i < |line| ==> !IsLineBreak(line[i])
  }

  /**
   * `str.splitlines()`: a "\r\n" pair ends one line, a trailing break adds
   * no empty line, and the empty string has no lines.
   */
  function SplitLines(s: string): seq<string>
    decreases |s|
  {
    if s == [] then []
    else if BreakIndex(s) == |s| then [s]
    else [s[..BreakIndex(s)]] + SplitLines(s[LineEnd(s, BreakIndex(s))..])
  }

  /** Where the next line starts after the break at `n`: a "\r\n" pair is one break. */
  function LineEnd(s: string, n: nat): (e: nat)
    requires n < |s|
    ensures n < e <= |s|
  {
    if s[n] == '\r' && n + 1 < |s| && s[n + 1] == '\n' then n + 2 else n + 1
  }

  /** No line that `splitlines` returns holds a line break. */
  lemma {:induction false} SplitLinesNoBreaks(s: string)
    ensures forall k :: 0 <= k < |SplitLines(s)| ==> NoBreaks(SplitLines(s)[k])
    decreases |s|
  {
    if s != [] {
      var n := BreakIndex(s);
      if n < |s| {
        SplitLinesNoBreaks(s[LineEnd(s, n)..]);
      }
    }
  }

  /** A character absent from the text is absent from every line `splitlines` returns. */
  lemma {:induction false} SplitLinesWithout(s: string, c: char)
    requires forall i :: 0 <= i < |s| ==> s[i] != c
    ensures forall k, i :: 0 <= k < |SplitLines(s)| && 0 <= i < |SplitLines(s)[k]| ==> SplitLines(s)[k][i] != c
    decreases |s|
  {
    if s != [] {
      var n := BreakIndex(s);
      if n < |s| {
        var rest := s[LineEnd(s, n)..];
        assert forall i :: 0 <= i < |rest| ==> rest[i] == s[LineEnd(s, n) + i];
        SplitLinesWithout(rest, c);
        assert SplitLines(s) == [s[..n]] + SplitLines(rest);
      }
    }
  }

  /** `"\n".join(lines)`. */
  function Join(lines: seq<string>): string {
    if lines == [] then []
    else if |lines| == 1 then lines[0]
    else lines[0] + "\n" + Join(lines[1..])
  }

  /** The only line break in `s` is '\n' (the form app.py's output takes). */
  predicate OnlyNewlines(s: string) {
    forall i :: 0 <= i < |s| && IsLineBreak(s[i]) ==> s[i] == '\n'
  }

  /**
   * Joining the lines of a text whose breaks are all '\n' and that does not
   * end in one gives the text back.
   */
  lemma {:induction false} JoinSplitLines(s: string)
    requires OnlyNewlines(s)
    requires s == [] || s[|s| - 1] != '\n'
    ensures Join(SplitLines(s)) == s
    decreases |s|
  {
    if s != [] && BreakIndex(s) < |s| {
      var n := BreakIndex(s);
      var rest := s[n + 1..];
      assert s[n] == '\n';
      SplitLinesAtNewline(s);
      OnlyNewlinesSuffix(s, n + 1);
      JoinSplitLines(rest);
      SplitLinesNonEmpty(rest);
      JoinCons(s[..n], SplitLines(rest));
      Around(s, n);
    }
  }

  /** `s` is the part before index `n`, the character at `n`, and the part after. */
  lemma Around(s: string, n: nat)
    requires n < |s|
    ensures s == s[..n] + [s[n]] + s[n + 1..]
  {
  }

  lemma SplitLinesNonEmpty(s: string)
    requires s != []
    ensures SplitLines(s) != []
  {
  }

  lemma OnlyNewlinesSuffix(s: string, k: nat)
    requires OnlyNewlines(s) && k <= |s|
    requires s == [] || s[|s| - 1] != '\n'
    ensures OnlyNewlines(s[k..])
    ensures s[k..] == [] || s[k..][|s[k..]| - 1] != '\n'
  {
    forall i | 0 <= i < |s| - k && IsLineBreak(s[k..][i]) ensures s[k..][i] == '\n' {
      assert s[k..][i] == s[k + i];
    }
  }

  /** Before the break at `BreakIndex(s)` comes a whole line. */
  lemma SplitLinesAtNewline(s: string)
    requires BreakIndex(s) < |s| && s[BreakIndex(s)] == '\n'
    ensures SplitLines(s) == [s[..BreakIndex(s)]] + SplitLines(s[BreakIndex(s) + 1..])
  {
    SplitLinesUnfold(s);
    LineEndAtNewline(s, BreakIndex(s));
  }

  lemma SplitLinesUnfold(s: string)
    requires BreakIndex(s) < |s|
    ensures SplitLines(s) == [s[..BreakIndex(s)]] + SplitLines(s[LineEnd(s, BreakIndex(s))..])
  {
  }

  lemma LineEndAtNewline(s: string, n: nat)
    requires n < |s| && s[n] == '\n'
    ensures LineEnd(s, n) == n + 1
  {
  }

  lemma JoinCons(line: string, lines: seq<string>)
    requires lines != []
    ensures Join([line] + lines) == line + "\n" + Join(lines)
  {
    assert ([line] + lines)[1..] == lines;
  }

  /** A final '\n' is lost: splitting and re-joining drops it. */
  lemma {:induction false} JoinSplitLinesDropsFinalNewline(s: string)
    requires OnlyNewlines(s)
    requires s == [] || s[|s| - 1] != '\n'
    ensures Join(SplitLines(s + "\n")) == s
    decreases |s|
  {
    var t := s + "\n";
    assert t[|s|] == '\n';
    if BreakIndex(s) < |s| {
      var n := BreakIndex(s);
      assert s[n] == '\n';
      BreakIndexAppend(s, "\n");
      var rest := s[n + 1..];
      assert t[n + 1..] == rest + "\n";
      assert t[..n] == s[..n];
      SplitLinesAtNewline(t);
      OnlyNewlinesSuffix(s, n + 1);
      JoinSplitLinesDropsFinalNewline(rest);
      SplitLinesNonEmpty(rest + "\n");
      JoinCons(s[..n], SplitLines(rest + "\n"));
      Around(s, n);
    } else {
      BreakIndexAt(s, "\n");
      assert t[..|s|] == s;
      SplitLinesAtNewline(t);
      assert t[|s| + 1..] == [];
    }
  }

  /** A break inside `a` is found before anything appended to `a`. */
  lemma BreakIndexAppend(a: string, b: string)
    requires BreakIndex(a) < |a|
    ensures BreakIndex(a + b) == BreakIndex(a)
  {
    var n := BreakIndex(a);
    assert forall i :: 0 <= i < |a| ==> (a + b)[i] == a[i];
    assert (a + b)[n] == a[n];
  }

  /**
   * Splitting the join of break-free lines gives the lines back, unless the
   * last one is empty (a trailing empty line does not survive `splitlines`).
   */
  lemma {:induction false} SplitLinesJoin(lines: seq<string>)
    requires forall k :: 0 <= k < |lines| ==> NoBreaks(lines[k])
    requires lines == [] || lines[|lines| - 1] != []
    ensures SplitLines(Join(lines)) == lines
  {
    if |lines| == 1 {
      assert BreakIndex(lines[0]) == |lines[0]|;
    } else if |lines| > 1 {
      var s := Join(lines);
      var rest := Join(lines[1..]);
      assert s == lines[0] + "\n" + rest;
      SplitLinesJoin(lines[1..]);
      BreakIndexAt(lines[0], "\n" + rest);
      assert s[|lines[0]|] == '\n';
      assert s[..|lines[0]|] == lines[0];
      assert s[|lines[0]| + 1..] == rest;
      JoinNonEmpty(lines[1..]);
      SplitLinesAtNewline(s);
    }
  }

  lemma BreakIndexAt(a: string, b: string)
    requires NoBreaks(a) || BreakIndex(a) == |a|
    requires b != [] && IsLineBreak(b[0])
    ensures BreakIndex(a + b) == |a|
  {
    assert (a + b)[|a|] == b[0];
    assert forall i :: 0 <= i < |a| ==> (a + b)[i] == a[i];
  }

  lemma {:induction false} JoinNonEmpty(lines: seq<string>)
    requires lines != [] && lines[|lines| - 1] != []
    ensures Join(lines) != []
  {
    if |lines| > 1 {
      JoinNonEmpty(lines[1..]);
    }
  }
}

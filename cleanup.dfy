/**
 * `cleanup_markdown` (app.py:350-364): three rewrites of the Markdown text
 * before it is parsed — empty ATX headings are deleted, backslash-escaped
 * punctuation is unescaped, and an empty line is inserted between a pipe-table
 * row and an ATX heading on the next line.
 */
module Cleanup {
  import opened Wrappers
  import opened Text

  // ---------------------------------------------------------------------------
  // Empty headings: re.sub(r"(?m)^\s*#{1,6}\s*$\n?", "", md)
  // ---------------------------------------------------------------------------

  /** The end of the run of whitespace that starts at `p`. */
  function SkipSpaces(s: string, p: nat): (n: nat)
    requires p <= |s|
    ensures p <= n <= |s|
    ensures forall i :: p <= i < n ==> IsSpace(s[i])
    ensures n == |s| || !IsSpace(s[n])
    decreases |s| - p
  {
    if p == |s| || !IsSpace(s[p]) then p else SkipSpaces(s, p + 1)
  }

  /** The end of the run of `#` that starts at `p`. */
  function SkipHashes(s: string, p: nat): (n: nat)
    requires p <= |s|
    ensures p <= n <= |s|
    ensures forall i :: p <= i < n ==> s[i] == '#'
    ensures n == |s| || s[n] != '#'
    decreases |s| - p
  {
    if p == |s| || s[p] != '#' then p else SkipHashes(s, p + 1)
  }

  /** A run of `#` from `p` that ends at `q` is what `SkipHashes` skips. */
  lemma {:induction false} SkipHashesStopsAt(s: string, p: nat, q: nat)
    requires p <= q <= |s|
    requires forall i :: p <= i < q ==> s[i] == '#'
    requires q == |s| || s[q] != '#'
    ensures SkipHashes(s, p) == q
    decreases q - p
  {
    if p < q {
      SkipHashesStopsAt(s, p + 1, q);
    }
  }

  /** A run of whitespace from `p` that ends at `q` is what `SkipSpaces` skips. */
  lemma {:induction false} SkipSpacesStopsAt(s: string, p: nat, q: nat)
    requires p <= q <= |s|
    requires forall i :: p <= i < q ==> IsSpace(s[i])
    requires q == |s| || !IsSpace(s[q])
    ensures SkipSpaces(s, p) == q
    decreases q - p
  {
    if p < q {
      SkipSpacesStopsAt(s, p + 1, q);
    }
  }

  /** `^` in multi-line mode: the start of the text or just after a `\n`. */
  predicate AtLineStart(s: string, p: nat)
    requires p <= |s|
  {
    p == 0 || s[p - 1] == '\n'
  }

  /** The last `\n` in `s[lo..hi]`, if there is one. */
  function LastNewline(s: string, lo: nat, hi: nat): (r: Option<nat>)
    requires lo <= hi <= |s|
    ensures r.Some? ==> lo <= r.value < hi && s[r.value] == '\n'
    ensures r.Some? ==> forall i :: r.value < i < hi ==> s[i] != '\n'
    ensures r.None? ==> forall i :: lo <= i < hi ==> s[i] != '\n'
    decreases hi - lo
  {
    if lo == hi then None
    else if s[hi - 1] == '\n' then Some(hi - 1)
    else LastNewline(s, lo, hi - 1)
  }

  /** `c` is whitespace or `#`: the only characters the empty-heading pattern consumes. */
  predicate IsBlankOrHash(c: char) {
    IsSpace(c) || c == '#'
  }

  /**
   * Where a match of `\s*#{1,6}\s*$\n?` that starts at `p` ends, if one does.
   *
   * The first `\s*` can cross line ends, and must stop right before a `#`:
   * backing off leaves a whitespace character where `#` is needed. A run of
   * more than six `#` never matches, since a `#` would follow where `\s*$`
   * needs whitespace or a line end. The second `\s*` runs greedily to `r`; if
   * `r` is the end of the text, `$` holds there and `\n?` matches nothing.
   * Otherwise a non-whitespace character follows, so the regex engine backs off
   * to the last `\n` before it, where `$` holds, and `\n?` takes that `\n`.
   */
  function EmptyHeadingMatch(s: string, p: nat): (r: Option<nat>)
    requires p <= |s|
    ensures r.Some? ==> p < r.value <= |s|
    ensures r.Some? ==> 1 <= SkipHashes(s, SkipSpaces(s, p)) - SkipSpaces(s, p) <= 6
    ensures r.Some? ==> forall i :: p <= i < r.value ==> IsBlankOrHash(s[i])
    ensures r.Some? ==> r.value == |s| || s[r.value - 1] == '\n'
  {
    var a := SkipSpaces(s, p);
    var e := SkipHashes(s, a);
    if e == a || e - a > 6 then None
    else
      var r := SkipSpaces(s, e);
      if r == |s| then Some(|s|)
      else
        match LastNewline(s, e, r)
        case None => None
        case Some(q) => Some(q + 1)
  }

  /**
   * A match of `\s*#{1,6}\s*$\n?` from `p` to `m`, by its parts: whitespace up
   * to `a`, one to six `#` up to `e`, and the whole run of whitespace after
   * them, up to `r`. At the end of the text the match takes all of it;
   * otherwise it ends just after the last `\n` of that run.
   */
  predicate EmptyHeadingShape(s: string, p: nat, a: nat, e: nat, r: nat, m: nat) {
    && p <= a < e <= r <= |s| && m <= |s|
    && (forall i :: p <= i < a ==> IsSpace(s[i]))
    && e - a <= 6 && (forall i :: a <= i < e ==> s[i] == '#')
    && (forall i :: e <= i < r ==> IsSpace(s[i]))
    && (r == |s| || !IsSpace(s[r]))
    && if r == |s| then m == |s|
       else e < m <= r && s[m - 1] == '\n' && forall i :: m <= i < r ==> s[i] != '\n'
  }

  /** The pattern matches from `p` to `m`. */
  ghost predicate IsEmptyHeadingMatch(s: string, p: nat, m: nat) {
    exists a, e, r :: EmptyHeadingShape(s, p, a, e, r, m)
  }

  /** Whatever has the shape of a match is the match `EmptyHeadingMatch` finds. */
  lemma EmptyHeadingShapeMatches(s: string, p: nat, a: nat, e: nat, r: nat, m: nat)
    requires EmptyHeadingShape(s, p, a, e, r, m)
    ensures EmptyHeadingMatch(s, p) == Some(m)
  {
    SkipSpacesStopsAt(s, p, a);
    SkipHashesStopsAt(s, a, e);
    SkipSpacesStopsAt(s, e, r);
    if r < |s| {
      var l := LastNewline(s, e, r);
      assert l == Some(m - 1);
    }
  }

  /** `EmptyHeadingMatch` finds a match ending at `m` exactly when the pattern matches there. */
  lemma EmptyHeadingMatchExact(s: string, p: nat, m: nat)
    requires p <= |s|
    ensures EmptyHeadingMatch(s, p) == Some(m) <==> IsEmptyHeadingMatch(s, p, m)
  {
    if EmptyHeadingMatch(s, p) == Some(m) {
      var a := SkipSpaces(s, p);
      var e := SkipHashes(s, a);
      var r := SkipSpaces(s, e);
      assert EmptyHeadingShape(s, p, a, e, r, m);
    }
    if IsEmptyHeadingMatch(s, p, m) {
      var a, e, r :| EmptyHeadingShape(s, p, a, e, r, m);
      EmptyHeadingShapeMatches(s, p, a, e, r, m);
    }
  }

  /** The substitution, scanning left to right from `p` as `re.sub` does. */
  function RemoveEmptyHeadingsFrom(s: string, p: nat): string
    requires p <= |s|
    decreases |s| - p
  {
    if p == |s| then []
    else if AtLineStart(s, p) && EmptyHeadingMatch(s, p).Some? then
      RemoveEmptyHeadingsFrom(s, EmptyHeadingMatch(s, p).value)
    else [s[p]] + RemoveEmptyHeadingsFrom(s, p + 1)
  }

  function RemoveEmptyHeadings(s: string): string {
    RemoveEmptyHeadingsFrom(s, 0)
  }

  /** The characters of `s` other than whitespace and `#`, in order. */
  function Content(s: string): string {
    if s == [] then [] else (if IsBlankOrHash(s[0]) then [] else [s[0]]) + Content(s[1..])
  }

  lemma {:induction false} ContentAppend(a: string, b: string)
    ensures Content(a + b) == Content(a) + Content(b)
  {
    if a == [] {
      assert a + b == b;
    } else {
      assert (a + b)[0] == a[0];
      assert (a + b)[1..] == a[1..] + b;
      ContentAppend(a[1..], b);
    }
  }

  lemma {:induction false} ContentOfBlanks(a: string)
    requires forall i :: 0 <= i < |a| ==> IsBlankOrHash(a[i])
    ensures Content(a) == []
  {
    if a != [] {
      ContentOfBlanks(a[1..]);
    }
  }

  /**
   * Removing empty headings only ever deletes whitespace and `#`: every other
   * character of the text survives, in order.
   */
  lemma {:induction false} RemoveEmptyHeadingsKeepsContent(s: string, p: nat)
    requires p <= |s|
    ensures Content(RemoveEmptyHeadingsFrom(s, p)) == Content(s[p..])
    decreases |s| - p
  {
    if p < |s| {
      if AtLineStart(s, p) && EmptyHeadingMatch(s, p).Some? {
        var q := EmptyHeadingMatch(s, p).value;
        RemoveEmptyHeadingsKeepsContent(s, q);
        ContentSplit(s, p, q);
        ContentOfBlankRange(s, p, q);
      } else {
        RemoveEmptyHeadingsKeepsContent(s, p + 1);
        ContentSplit(s, p, p + 1);
        KeptCharacter(s, p);
      }
    }
  }

  /** A character kept by the removal adds the same content on both sides. */
  lemma KeptCharacter(s: string, p: nat)
    requires p < |s| && !(AtLineStart(s, p) && EmptyHeadingMatch(s, p).Some?)
    ensures Content(RemoveEmptyHeadingsFrom(s, p)) == Content(s[p..p + 1]) + Content(RemoveEmptyHeadingsFrom(s, p + 1))
  {
    assert s[p..p + 1] == [s[p]];
    ContentAppend([s[p]], RemoveEmptyHeadingsFrom(s, p + 1));
  }

  lemma ContentSplit(s: string, p: nat, q: nat)
    requires p <= q <= |s|
    ensures Content(s[p..]) == Content(s[p..q]) + Content(s[q..])
  {
    assert s[p..] == s[p..q] + s[q..];
    ContentAppend(s[p..q], s[q..]);
  }

  lemma ContentOfBlankRange(s: string, p: nat, q: nat)
    requires p <= q <= |s|
    requires forall i :: p <= i < q ==> IsBlankOrHash(s[i])
    ensures Content(s[p..q]) == []
  {
    var a := s[p..q];
    assert forall i :: 0 <= i < |a| ==> a[i] == s[p + i];
    ContentOfBlanks(a);
  }

  /** Text without `#` has no empty heading to remove. */
  lemma {:induction false} RemoveEmptyHeadingsNoHash(s: string, p: nat)
    requires p <= |s|
    requires forall i :: 0 <= i < |s| ==> s[i] != '#'
    ensures RemoveEmptyHeadingsFrom(s, p) == s[p..]
    decreases |s| - p
  {
    if p < |s| {
      RemoveEmptyHeadingsNoHash(s, p + 1);
      assert s[p..] == [s[p]] + s[p + 1..];
    }
  }

  /** No match starts at `p` when the whitespace from `p` is not followed by `#`. */
  lemma NoMatchWithoutHash(s: string, p: nat)
    requires p <= |s|
    requires SkipSpaces(s, p) == |s| || s[SkipSpaces(s, p)] != '#'
    ensures EmptyHeadingMatch(s, p).None?
  {
  }

  /**
   * A block without `#` that ends at the end of the text or before a
   * non-space character holds no match start: the whitespace skipped from
   * any of its positions stops inside it, on a character other than `#`.
   * The removal copies such a block unchanged.
   */
  lemma {:induction false} RemoveCopies(s: string, p: nat, q: nat)
    requires p <= q <= |s|
    requires forall i :: p <= i < q ==> s[i] != '#'
    requires q == |s| || (0 < q && !IsSpace(s[q - 1]))
    ensures RemoveEmptyHeadingsFrom(s, p) == s[p..q] + RemoveEmptyHeadingsFrom(s, q)
    decreases q - p
  {
    if p < q {
      RemoveCopies(s, p + 1, q);
      RemoveCopiesStep(s, p, q);
      PrependSlice(s, p, q, RemoveEmptyHeadingsFrom(s, q));
    }
  }

  /** The first position of such a block is copied. */
  lemma RemoveCopiesStep(s: string, p: nat, q: nat)
    requires p < q <= |s|
    requires forall i :: p <= i < q ==> s[i] != '#'
    requires q == |s| || !IsSpace(s[q - 1])
    ensures RemoveEmptyHeadingsFrom(s, p) == [s[p]] + RemoveEmptyHeadingsFrom(s, p + 1)
  {
    var n := SkipSpaces(s, p);
    assert n == |s| || n < q;
    NoMatchWithoutHash(s, p);
    RemoveCopiesOne(s, p);
  }

  lemma PrependSlice(s: string, p: nat, q: nat, t: string)
    requires p < q <= |s|
    ensures [s[p]] + (s[p + 1..q] + t) == s[p..q] + t
  {
    assert s[p..q] == [s[p]] + s[p + 1..q];
  }

  /** Where no match starts, the removal copies one character. */
  lemma RemoveCopiesOne(s: string, p: nat)
    requires p < |s| && !(AtLineStart(s, p) && EmptyHeadingMatch(s, p).Some?)
    ensures RemoveEmptyHeadingsFrom(s, p) == [s[p]] + RemoveEmptyHeadingsFrom(s, p + 1)
  {
  }

  /**
   * An empty heading at a line start — indented or not, on the last line or
   * not — is deleted with its line end and with the blank lines after it,
   * since `\s*` also matches line ends: the removal resumes where the match
   * ends.
   */
  lemma EmptyHeadingLineRemoved(s: string, p: nat, a: nat, e: nat, r: nat, m: nat)
    requires EmptyHeadingShape(s, p, a, e, r, m) && AtLineStart(s, p)
    ensures EmptyHeadingMatch(s, p) == Some(m)
    ensures RemoveEmptyHeadingsFrom(s, p) == RemoveEmptyHeadingsFrom(s, m)
  {
    EmptyHeadingShapeMatches(s, p, a, e, r, m);
  }

  /**
   * A heading line with a title is not an empty heading: after the `#` run and
   * whitespace that stays on the line comes a character that is not
   * whitespace, so nothing matches at its start, wherever the line is.
   */
  lemma TitledHeadingKept(s: string, p: nat, a: nat, q: nat, r: nat)
    requires p <= a < q <= r < |s| && s[q] != '#'
    requires forall i :: p <= i < a ==> IsSpace(s[i])
    requires forall i :: a <= i < q ==> s[i] == '#'
    requires forall i :: q <= i < r ==> IsSpace(s[i]) && s[i] != '\n'
    requires !IsSpace(s[r])
    ensures EmptyHeadingMatch(s, p) == None
  {
    SkipSpacesStopsAt(s, p, a);
    SkipHashesStopsAt(s, a, q);
    SkipSpacesStopsAt(s, q, r);
  }

  // ---------------------------------------------------------------------------
  // Unescaping: re.sub(r"\\([\\`*_{}\[\]()#+\-.!|>~])", r"\1", md)
  // ---------------------------------------------------------------------------

  /** The eighteen characters a backslash may escape. */
  predicate IsEscapable(c: char) {
    || c == '\\' || c == '`' || c == '*' || c == '_' || c == '{' || c == '}'
    || c == '[' || c == ']' || c == '(' || c == ')' || c == '#' || c == '+'
    || c == '-' || c == '.' || c == '!' || c == '|' || c == '>' || c == '~'
  }

  /** Each backslash before an escapable character is dropped, scanning left to right. */
  function Unescape(s: string): (r: string)
    ensures |r| <= |s|
  {
    if |s| >= 2 && s[0] == '\\' && IsEscapable(s[1]) then [s[1]] + Unescape(s[2..])
    else if s == [] then []
    else [s[0]] + Unescape(s[1..])
  }

  /** Markdown escaping of the same character set: a backslash before each escapable character. */
  function Escape(s: string): (r: string)
    ensures |r| >= |s|
  {
    if s == [] then []
    else (if IsEscapable(s[0]) then ['\\', s[0]] else [s[0]]) + Escape(s[1..])
  }

  /** Unescaping undoes escaping. */
  lemma {:induction false} UnescapeEscape(s: string)
    ensures Unescape(Escape(s)) == s
  {
    if s != [] {
      UnescapeEscape(s[1..]);
      var e := Escape(s);
      if IsEscapable(s[0]) {
        assert e == ['\\', s[0]] + Escape(s[1..]);
        assert e[2..] == Escape(s[1..]);
      } else {
        assert e == [s[0]] + Escape(s[1..]);
        assert e[1..] == Escape(s[1..]);
      }
      assert s == [s[0]] + s[1..];
    }
  }

  /** A backslash before any other character, or at the very end, stays. */
  lemma OtherBackslashKept(t: string)
    requires t == [] || !IsEscapable(t[0])
    ensures Unescape(['\\'] + t) == ['\\'] + Unescape(t)
  {
    assert (['\\'] + t)[1..] == t;
  }

  /** An escaped character loses its backslash. */
  lemma EscapedCharUnescaped(c: char, t: string)
    requires IsEscapable(c)
    ensures Unescape(['\\', c] + t) == [c] + Unescape(t)
  {
    assert (['\\', c] + t)[2..] == t;
  }

  /** Text without backslashes is left as it is. */
  lemma {:induction false} UnescapeNoBackslash(s: string)
    requires forall i :: 0 <= i < |s| ==> s[i] != '\\'
    ensures Unescape(s) == s
  {
    if s != [] {
      UnescapeNoBackslash(s[1..]);
      assert s == [s[0]] + s[1..];
    }
  }

  // ---------------------------------------------------------------------------
  // Blank line between a table row and a heading (app.py:355-364)
  // ---------------------------------------------------------------------------

  /**
   * `re.match(r"^\s*\|.*\|\s*$", line)`: stripped of whitespace, the line
   * starts and ends with `|` and has at least two characters. A line from
   * `splitlines` holds no `\n`, so `.` matches every character of it.
   */
  predicate IsTableRow(line: string) {
    var t := Strip(line);
    |t| >= 2 && t[0] == '|' && t[|t| - 1] == '|'
  }

  /**
   * `re.match(r"^\s*#{1,6}\s+\S", line)`: after leading whitespace, a run of
   * one to six `#`, whitespace, then a non-whitespace character. A run of more
   * than six `#` fails, since a `#` would stand where `\s+` needs whitespace.
   */
  predicate IsAtxHeadingLine(line: string) {
    var a := SkipSpaces(line, 0);
    var e := SkipHashes(line, a);
    && 1 <= e - a <= 6
    && e < |line| && IsSpace(line[e])
    && SkipSpaces(line, e) < |line|
  }

  /** Line `i` is a table row and line `i + 1` is a non-blank heading line. */
  predicate NeedsSeparatorAt(lines: seq<string>, i: nat) {
    && i + 1 < |lines|
    && IsTableRow(lines[i])
    && Strip(lines[i + 1]) != []
    && IsAtxHeadingLine(lines[i + 1])
  }

  /** Which lines the loop at app.py:357-363 follows with an empty line. */
  function SeparatorMarks(lines: seq<string>): (marks: seq<bool>)
    ensures |marks| == |lines|
    ensures forall i :: 0 <= i < |lines| ==> marks[i] == NeedsSeparatorAt(lines, i)
  {
    seq(|lines|, i requires 0 <= i < |lines| => NeedsSeparatorAt(lines, i))
  }

  /** Each line, followed by an empty line where it is marked. */
  function InsertBlanks(lines: seq<string>, marks: seq<bool>): seq<string>
    requires |marks| == |lines|
  {
    if lines == [] then []
    else [lines[0]] + (if marks[0] then [""] else []) + InsertBlanks(lines[1..], marks[1..])
  }

  /** What the loop has appended after handling the first `i` lines. */
  function InsertBlanksPrefix(lines: seq<string>, marks: seq<bool>, i: nat): seq<string>
    requires |marks| == |lines| && i <= |lines|
  {
    if i == 0 then []
    else InsertBlanksPrefix(lines, marks, i - 1) + [lines[i - 1]] + (if marks[i - 1] then [""] else [])
  }

  /** The output is the prefix for the first `i` lines followed by the output for the rest. */
  lemma {:induction false} InsertBlanksSplit(lines: seq<string>, marks: seq<bool>, i: nat)
    requires |marks| == |lines| && i <= |lines|
    ensures InsertBlanks(lines, marks) == InsertBlanksPrefix(lines, marks, i) + InsertBlanks(lines[i..], marks[i..])
  {
    if i == 0 {
      assert lines[0..] == lines && marks[0..] == marks;
    } else {
      InsertBlanksSplit(lines, marks, i - 1);
      var rest := lines[i - 1..];
      assert rest[0] == lines[i - 1] && rest[1..] == lines[i..];
      assert marks[i - 1..][0] == marks[i - 1] && marks[i - 1..][1..] == marks[i..];
    }
  }

  /** Unmarked lines are output unchanged. */
  lemma {:induction false} InsertNoBlanks(lines: seq<string>, marks: seq<bool>)
    requires |marks| == |lines| && forall i :: 0 <= i < |marks| ==> !marks[i]
    ensures InsertBlanks(lines, marks) == lines
  {
    if lines != [] {
      InsertNoBlanks(lines[1..], marks[1..]);
    }
  }

  /** The line sequence the loop at app.py:357-363 builds. */
  function Separate(lines: seq<string>): seq<string> {
    InsertBlanks(lines, SeparatorMarks(lines))
  }

  /** Where line `i` of the input lands in the output. */
  function Position(lines: seq<string>, i: nat): nat
    requires i <= |lines|
  {
    |InsertBlanksPrefix(lines, SeparatorMarks(lines), i)|
  }

  /**
   * Every input line is in the output, in order; an empty line follows line
   * `i` exactly when it is a table row followed by a heading line, and nothing
   * else is in the output.
   */
  lemma SeparateLayout(lines: seq<string>, i: nat)
    requires i < |lines|
    ensures Position(lines, i) < |Separate(lines)| && Separate(lines)[Position(lines, i)] == lines[i]
    ensures NeedsSeparatorAt(lines, i) ==>
      Position(lines, i) + 1 < |Separate(lines)| && Separate(lines)[Position(lines, i) + 1] == ""
    ensures Position(lines, i + 1) == Position(lines, i) + (if NeedsSeparatorAt(lines, i) then 2 else 1)
    ensures |Separate(lines)| == Position(lines, |lines|)
  {
    var marks := SeparatorMarks(lines);
    InsertBlanksSplit(lines, marks, i);
    InsertBlanksSplit(lines, marks, |lines|);
    assert lines[i..][0] == lines[i] && marks[i..][0] == marks[i];
  }

  lemma NeedsSeparatorShift(lines: seq<string>, k: nat, i: nat)
    requires k <= |lines|
    ensures NeedsSeparatorAt(lines[k..], i) == NeedsSeparatorAt(lines, k + i)
  {
    if k + i + 1 < |lines| {
      assert lines[k..][i] == lines[k + i] && lines[k..][i + 1] == lines[k + i + 1];
    }
  }

  lemma SeparatorMarksTail(lines: seq<string>)
    requires lines != []
    ensures SeparatorMarks(lines)[1..] == SeparatorMarks(lines[1..])
  {
    forall i | 0 <= i < |lines| - 1
      ensures SeparatorMarks(lines)[1..][i] == SeparatorMarks(lines[1..])[i]
    {
      NeedsSeparatorShift(lines, 1, i);
    }
  }

  /** No line of `lines` calls for a separator. */
  predicate NoSeparatorNeeded(lines: seq<string>) {
    forall i :: 0 <= i < |lines| ==> !NeedsSeparatorAt(lines, i)
  }

  /** An empty line is neither a table row nor a blank-free line. */
  lemma EmptyLineInert()
    ensures !IsTableRow("") && Strip("") == []
  {
  }

  /** After the pass, no table row is directly followed by a heading line. */
  lemma {:induction false} SeparateLeavesNoneNeeded(lines: seq<string>)
    ensures NoSeparatorNeeded(Separate(lines))
  {
    if lines != [] {
      var rest := lines[1..];
      var marks := SeparatorMarks(lines);
      SeparatorMarksTail(lines);
      SeparateLeavesNoneNeeded(rest);
      var tail := Separate(rest);
      var k := if marks[0] then 2 else 1;
      var out := Separate(lines);
      assert out == [lines[0]] + (if marks[0] then [""] else []) + tail;
      assert out[k..] == tail;
      EmptyLineInert();
      if !marks[0] && rest != [] {
        assert tail[0] == rest[0];
      }
      forall j | 0 <= j < |out|
        ensures !NeedsSeparatorAt(out, j)
      {
        if j >= k {
          NeedsSeparatorShift(out, k, j - k);
        } else if j == 0 && !marks[0] && rest != [] {
          assert out[1] == lines[1];
        }
      }
    }
  }

  /** A pass over lines that call for no separator changes nothing. */
  lemma SeparateNoOp(lines: seq<string>)
    requires NoSeparatorNeeded(lines)
    ensures Separate(lines) == lines
  {
    InsertNoBlanks(lines, SeparatorMarks(lines));
  }

  /** A second pass inserts nothing. */
  lemma SeparateIdempotent(lines: seq<string>)
    ensures Separate(Separate(lines)) == Separate(lines)
  {
    SeparateLeavesNoneNeeded(lines);
    SeparateNoOp(Separate(lines));
  }

  /** The heading test implies the line is not blank, so the `strip()` test never decides. */
  lemma HeadingLineNotBlank(line: string)
    requires IsAtxHeadingLine(line)
    ensures Strip(line) != []
  {
    var a := SkipSpaces(line, 0);
    assert LeadingSpaces(line) == a;
    var t := line[a..];
    assert t[0] == '#';
    assert t[..|t| - TrailingSpaces(t)][0] == '#';
  }

  /** `cleanup_markdown` as a whole. */
  function Cleanup(md: string): string {
    Join(Separate(SplitLines(Unescape(RemoveEmptyHeadings(md)))))
  }

  /** Handling line `i` appends the line and, where it needs one, an empty line. */
  lemma SeparateStep(lines: seq<string>, i: nat)
    requires i < |lines|
    ensures var marks := SeparatorMarks(lines);
      InsertBlanksPrefix(lines, marks, i + 1)
        == InsertBlanksPrefix(lines, marks, i) + [lines[i]] + (if NeedsSeparatorAt(lines, i) then [""] else [])
  {
  }

  /** The separator pass, appending to `out` line by line as app.py:356-363 does. */
  method SeparateTableHeadings(lines: seq<string>) returns (out: seq<string>)
    ensures out == Separate(lines)
  {
    out := [];
    for i := 0 to |lines|
      invariant out == InsertBlanksPrefix(lines, SeparatorMarks(lines), i)
    {
      SeparateStep(lines, i);
      out := out + [lines[i]];
      if IsTableRow(lines[i]) {
        if i + 1 < |lines| {
          var next := lines[i + 1];
          if Strip(next) != [] && IsAtxHeadingLine(next) {
            out := out + [""];
          }
        }
      }
    }
    InsertBlanksSplit(lines, SeparatorMarks(lines), |lines|);
  }

  /** A line without `#` is no heading line. */
  lemma NoHashNoHeadingLine(line: string)
    requires forall i :: 0 <= i < |line| ==> line[i] != '#'
    ensures !IsAtxHeadingLine(line)
  {
  }

  /** The lines of a text without `#` call for no separator. */
  lemma NoHashNoSeparator(s: string)
    requires forall i :: 0 <= i < |s| ==> s[i] != '#'
    ensures NoSeparatorNeeded(SplitLines(s))
  {
    var lines := SplitLines(s);
    SplitLinesWithout(s, '#');
    forall i | 0 <= i < |lines|
      ensures !NeedsSeparatorAt(lines, i)
    {
      if i + 1 < |lines| {
        NoHashNoHeadingLine(lines[i + 1]);
      }
    }
  }

  /**
   * After the empty headings are gone, text with no `#`, no backslash, no
   * line break but `\n` and no final `\n` passes the other rewrites unchanged.
   */
  lemma LaterRewritesKeep(t: string)
    requires forall i :: 0 <= i < |t| ==> t[i] != '#' && t[i] != '\\'
    requires OnlyNewlines(t) && (t == [] || t[|t| - 1] != '\n')
    ensures Join(Separate(SplitLines(Unescape(t)))) == t
  {
    UnescapeNoBackslash(t);
    NoHashNoSeparator(t);
    SeparateNoOp(SplitLines(t));
    JoinSplitLines(t);
  }

  /**
   * Text with no `#`, no backslash, no line break but `\n` and no final `\n`
   * comes out of `cleanup_markdown` unchanged.
   */
  lemma CleanupUnchanged(md: string)
    requires forall i :: 0 <= i < |md| ==> md[i] != '#' && md[i] != '\\'
    requires OnlyNewlines(md) && (md == [] || md[|md| - 1] != '\n')
    ensures Cleanup(md) == md
  {
    RemoveEmptyHeadingsNoHash(md, 0);
    assert md[0..] == md;
    LaterRewritesKeep(md);
  }

  /** The same text with a final `\n` loses only that `\n`. */
  lemma CleanupDropsFinalNewline(md: string)
    requires forall i :: 0 <= i < |md| ==> md[i] != '#' && md[i] != '\\'
    requires OnlyNewlines(md) && (md == [] || md[|md| - 1] != '\n')
    ensures Cleanup(md + "\n") == md
  {
    var t := md + "\n";
    assert forall i :: 0 <= i < |t| ==> t[i] != '#' && t[i] != '\\' by {
      assert forall i :: 0 <= i < |md| ==> t[i] == md[i];
    }
    RemoveEmptyHeadingsNoHash(t, 0);
    assert t[0..] == t;
    UnescapeNoBackslash(t);
    NoHashNoSeparator(t);
    SeparateNoOp(SplitLines(t));
    JoinSplitLinesDropsFinalNewline(md);
  }

  /**
   * An empty `##` line between two lines of text disappears with its line
   * end: `a + "\n##\n" + b` comes out as `a + "\n" + b`. The text before
   * must end in a non-space character and the text after must start with
   * one; otherwise `\s*` reaches across the neighbouring blank space and the
   * match takes more.
   */
  lemma CleanupRemovesEmptyHeading(a: string, b: string)
    requires forall i :: 0 <= i < |a| ==> a[i] != '#' && a[i] != '\\'
    requires forall i :: 0 <= i < |b| ==> b[i] != '#' && b[i] != '\\'
    requires OnlyNewlines(a) && OnlyNewlines(b)
    requires a != [] && !IsSpace(a[|a| - 1])
    requires b != [] && !IsSpace(b[0]) && b[|b| - 1] != '\n'
    ensures Cleanup(a + "\n##\n" + b) == a + "\n" + b
  {
    var s := a + "\n##\n" + b;
    assert RemoveEmptyHeadings(s) == a + "\n" + b by {
      RemoveAroundHeading(a, b);
    }
    var t := a + "\n" + b;
    assert forall i :: 0 <= i < |t| ==> t[i] != '#' && t[i] != '\\' && (IsLineBreak(t[i]) ==> t[i] == '\n') by {
      assert forall i :: 0 <= i < |a| ==> t[i] == a[i];
      assert forall i :: |a| + 1 <= i < |t| ==> t[i] == b[i - |a| - 1];
    }
    assert t[|t| - 1] == b[|b| - 1];
    LaterRewritesKeep(t);
  }

  /** The empty-heading pass on `a + "\n##\n" + b`. */
  lemma RemoveAroundHeading(a: string, b: string)
    requires forall i :: 0 <= i < |a| ==> a[i] != '#'
    requires forall i :: 0 <= i < |b| ==> b[i] != '#'
    requires a != [] && !IsSpace(a[|a| - 1])
    requires b != [] && !IsSpace(b[0])
    ensures RemoveEmptyHeadings(a + "\n##\n" + b) == a + "\n" + b
  {
    var s := a + "\n##\n" + b;
    var p := |a| + 1;
    RemoveBeforeHeading(a, b);
    assert RemoveEmptyHeadingsFrom(s, p) == RemoveEmptyHeadingsFrom(s, p + 3) by {
      assert s[|a|] == '\n' && s[p] == '#' && s[p + 1] == '#' && s[p + 2] == '\n';
      assert s[p + 3] == b[0];
      EmptyHeadingLineRemoved(s, p, p, p + 2, p + 3, p + 3);
    }
    RemoveAfterHeading(a, b);
  }

  /** Before the `##` line nothing matches: the text is copied up to the line start. */
  lemma RemoveBeforeHeading(a: string, b: string)
    requires forall i :: 0 <= i < |a| ==> a[i] != '#'
    requires a != [] && !IsSpace(a[|a| - 1])
    ensures var s := a + "\n##\n" + b;
      RemoveEmptyHeadingsFrom(s, 0) == a + "\n" + RemoveEmptyHeadingsFrom(s, |a| + 1)
  {
    var y := "\n##\n" + b;
    assert a + "\n##\n" + b == a + y;
    RemoveBeforeLineEnd(a, y);
  }

  /** A line without `#` ending in a non-space character is copied with its `\n`. */
  lemma RemoveBeforeLineEnd(x: string, y: string)
    requires forall i :: 0 <= i < |x| ==> x[i] != '#'
    requires x != [] && !IsSpace(x[|x| - 1])
    requires y != [] && y[0] == '\n'
    ensures RemoveEmptyHeadingsFrom(x + y, 0) == x + "\n" + RemoveEmptyHeadingsFrom(x + y, |x| + 1)
  {
    var s, n := x + y, |x|;
    assert forall i :: 0 <= i < n ==> s[i] == x[i];
    RemoveCopies(s, 0, n);
    assert s[0..n] == x;
    assert s[n] == '\n' && !AtLineStart(s, n);
    RemoveCopiesOne(s, n);
    ConcatAssoc(x, "\n", RemoveEmptyHeadingsFrom(s, n + 1));
  }

  /** After the `##` line nothing matches: the rest of the text is copied. */
  lemma RemoveAfterHeading(a: string, b: string)
    requires forall i :: 0 <= i < |b| ==> b[i] != '#'
    ensures var s := a + "\n##\n" + b;
      RemoveEmptyHeadingsFrom(s, |a| + 4) == b
  {
    RemoveSuffixCopied(a + "\n##\n", b);
  }

  /** A suffix without `#` is copied unchanged. */
  lemma RemoveSuffixCopied(x: string, b: string)
    requires forall i :: 0 <= i < |b| ==> b[i] != '#'
    ensures RemoveEmptyHeadingsFrom(x + b, |x|) == b
  {
    var s := x + b;
    assert forall i :: |x| <= i < |s| ==> s[i] == b[i - |x|];
    RemoveCopies(s, |x|, |s|);
    assert s[|x|..|s|] == b;
  }

  method CleanupMarkdown(md: string) returns (r: string)
    ensures r == Cleanup(md)
  {
    var text := RemoveEmptyHeadings(md);
    text := Unescape(text);
    var lines := SplitLines(text);
    var out := SeparateTableHeadings(lines);
    r := Join(out);
  }
}

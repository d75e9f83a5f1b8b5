/**
 * Heading text normalisation and the closed catalogue of section headings
 * (`normalize_heading` and `classify_section`, app.py:372-401).
 */
module Headings {
  import opened Wrappers
  import opened Text
  import opened Seqs

  /**
   * A letter of the class `[ivxlcdm]` matched case-insensitively. Python's
   * case-insensitive matching also lets `i` match the dotted capital
   * U+0130 and the dotless small U+0131.
   */
  predicate IsNumeralLetter(c: char) {
    || c == 'i' || c == 'v' || c == 'x' || c == 'l' || c == 'c' || c == 'd' || c == 'm'
    || c == 'I' || c == 'V' || c == 'X' || c == 'L' || c == 'C' || c == 'D' || c == 'M'
    || c == '\U{130}' || c == '\U{131}'
  }

  /** A character of the class `[\.\)\:\-]`. */
  predicate IsMarkerSeparator(c: char) {
    c == '.' || c == ')' || c == ':' || c == '-'
  }

  function LeadingDigits(s: string): (n: nat)
    ensures n <= |s|
    ensures forall i :: 0 <= i < n ==> IsDigit(s[i])
    ensures n == |s| || !IsDigit(s[n])
  {
    if s == [] || !IsDigit(s[0]) then 0 else 1 + LeadingDigits(s[1..])
  }

  function LeadingNumerals(s: string): (n: nat)
    ensures n <= |s|
    ensures forall i :: 0 <= i < n ==> IsNumeralLetter(s[i])
    ensures n == |s| || !IsNumeralLetter(s[n])
  {
    if s == [] || !IsNumeralLetter(s[0]) then 0 else 1 + LeadingNumerals(s[1..])
  }

  /** `s` starts with exactly `k` digits. */
  predicate DigitRun(s: string, k: nat) {
    k <= |s| && (forall i :: 0 <= i < k ==> IsDigit(s[i])) && (k == |s| || !IsDigit(s[k]))
  }

  /** `s` starts with exactly `k` letters of `[ivxlcdm]`. */
  predicate LetterRun(s: string, k: nat) {
    k <= |s| && (forall i :: 0 <= i < k ==> IsNumeralLetter(s[i])) && (k == |s| || !IsNumeralLetter(s[k]))
  }

  /**
   * Length of the ordinal `(\d{1,2}|[ivxlcdm]{1,6})` at the front of `s`, or 0
   * when there is none. The run is taken whole: a longer run of digits or
   * numeral letters leaves the next character one of the class, which is
   * neither whitespace nor a separator, so no shorter choice can match either.
   * So the ordinal is a whole run of one or two digits or of one to six
   * numeral letters; three digits or seven letters give none.
   */
  function OrdinalLength(s: string): (n: nat)
    ensures n <= |s|
    ensures forall i :: 0 <= i < n ==> IsDigit(s[i]) || IsNumeralLetter(s[i])
    ensures n > 0 ==> (n <= 2 && DigitRun(s, n)) || (n <= 6 && LetterRun(s, n))
    ensures forall k :: 1 <= k <= 2 && DigitRun(s, k) ==> n == k
    ensures forall k :: 1 <= k <= 6 && LetterRun(s, k) ==> n == k
  {
    var d := LeadingDigits(s);
    if d > 0 then (if d <= 2 then d else 0)
    else
      var r := LeadingNumerals(s);
      if r <= 6 then r else 0
  }

  /** The first position from `j` on that is not whitespace. */
  function SkipWhitespace(s: string, j: nat): (k: nat)
    requires j <= |s|
    ensures j <= k <= |s|
    ensures forall i :: j <= i < k ==> IsSpace(s[i])
    ensures k == |s| || !IsSpace(s[k])
  {
    var t := s[j..];
    assert forall i :: 0 <= i < |t| ==> t[i] == s[j + i];
    j + LeadingSpaces(t)
  }

  /** Where the ordinal that starts at `j` ends: `j` itself when there is none. */
  function OrdinalEnd(s: string, j: nat): (k: nat)
    requires j <= |s|
    ensures j <= k <= |s|
    ensures forall i :: j <= i < k ==> IsDigit(s[i]) || IsNumeralLetter(s[i])
  {
    var t := s[j..];
    assert forall i :: 0 <= i < |t| ==> t[i] == s[j + i];
    j + OrdinalLength(t)
  }

  /**
   * The index of the separator that ends a leading ordinal marker
   * `^\(?\s*(\d{1,2}|[ivxlcdm]{1,6})\s*[\.\)\:\-]` (case-insensitive), if `s`
   * starts with one.
   */
  function MarkerSeparator(s: string): (r: Option<nat>)
    ensures r.Some? ==> r.value < |s| && IsMarkerSeparator(s[r.value])
  {
    var i1 := SkipWhitespace(s, if |s| > 0 && s[0] == '(' then 1 else 0);
    var i2 := OrdinalEnd(s, i1);
    if i2 == i1 then None
    else
      var i3 := SkipWhitespace(s, i2);
      if i3 < |s| && IsMarkerSeparator(s[i3]) then Some(i3) else None
  }

  /**
   * `s[..k + 1]` is a match of `\(?\s*(\d{1,2}|[ivxlcdm]{1,6})\s*[\.\)\:\-]`
   * by its parts: an optional `(` up to `i0`, whitespace up to `i1`, the
   * ordinal up to `i2`, whitespace up to the separator at `k`.
   */
  predicate MarkerSplit(s: string, i0: nat, i1: nat, i2: nat, k: nat) {
    && i0 <= i1 < i2 <= k < |s|
    && (i0 == 0 || (i0 == 1 && s[0] == '('))
    && (forall i :: i0 <= i < i1 ==> IsSpace(s[i]))
    && ((i2 - i1 <= 2 && forall i :: i1 <= i < i2 ==> IsDigit(s[i]))
        || (i2 - i1 <= 6 && forall i :: i1 <= i < i2 ==> IsNumeralLetter(s[i])))
    && (forall i :: i2 <= i < k ==> IsSpace(s[i]))
    && IsMarkerSeparator(s[k])
  }

  /** `s` starts with a marker whose separator is at `k`. */
  ghost predicate IsMarker(s: string, k: nat) {
    exists i0, i1, i2 :: MarkerSplit(s, i0, i1, i2, k)
  }

  /** A whole run of one or two digits, or one to six numeral letters, at `i1` is the ordinal. */
  lemma OrdinalAt(s: string, i1: nat, i2: nat)
    requires i1 < i2 < |s| && !IsDigit(s[i2]) && !IsNumeralLetter(s[i2])
    requires (i2 - i1 <= 2 && forall i :: i1 <= i < i2 ==> IsDigit(s[i]))
      || (i2 - i1 <= 6 && forall i :: i1 <= i < i2 ==> IsNumeralLetter(s[i]))
    ensures OrdinalEnd(s, i1) == i2
  {
    var t := s[i1..];
    assert forall i :: 0 <= i < |t| ==> t[i] == s[i1 + i];
    if i2 - i1 <= 2 && forall i :: i1 <= i < i2 ==> IsDigit(s[i]) {
      assert DigitRun(t, i2 - i1);
    } else {
      assert LetterRun(t, i2 - i1);
    }
  }

  /** A run of whitespace from `j` that ends at `k` is what `SkipWhitespace` skips. */
  lemma SkipWhitespaceAt(s: string, j: nat, k: nat)
    requires j <= k <= |s|
    requires forall i :: j <= i < k ==> IsSpace(s[i])
    requires k == |s| || !IsSpace(s[k])
    ensures SkipWhitespace(s, j) == k
  {
  }

  /** Where each part of a marker ends: none of its parts could run further. */
  lemma MarkerSplitEnds(s: string, i0: nat, i1: nat, i2: nat, k: nat)
    requires MarkerSplit(s, i0, i1, i2, k)
    ensures i0 == if s[0] == '(' then 1 else 0
    ensures !IsSpace(s[i1])
    ensures !IsDigit(s[i2]) && !IsNumeralLetter(s[i2])
    ensures !IsSpace(s[k])
  {
  }

  /** Whatever has the shape of a marker is the marker `MarkerSeparator` finds. */
  lemma MarkerSplitFound(s: string, i0: nat, i1: nat, i2: nat, k: nat)
    requires MarkerSplit(s, i0, i1, i2, k)
    ensures MarkerSeparator(s) == Some(k)
  {
    MarkerSplitEnds(s, i0, i1, i2, k);
    SkipWhitespaceAt(s, i0, i1);
    OrdinalAt(s, i1, i2);
    SkipWhitespaceAt(s, i2, k);
  }

  /** A marker followed by whitespace up to `j`: both the separator and the removed length. */
  lemma MarkerWithSpaces(s: string, i0: nat, i1: nat, i2: nat, k: nat, j: nat)
    requires MarkerSplit(s, i0, i1, i2, k) && k < j <= |s|
    requires forall i :: k < i < j ==> IsSpace(s[i])
    requires j == |s| || !IsSpace(s[j])
    ensures MarkerSeparator(s) == Some(k) && MarkerLength(s) == j
  {
    MarkerSplitFound(s, i0, i1, i2, k);
    SkipWhitespaceAt(s, k + 1, j);
  }

  /** What `MarkerSeparator` finds has the shape of a marker. */
  lemma MarkerSeparatorSound(s: string)
    requires MarkerSeparator(s).Some?
    ensures IsMarker(s, MarkerSeparator(s).value)
  {
    var i0 := if |s| > 0 && s[0] == '(' then 1 else 0;
    var i1 := SkipWhitespace(s, i0);
    var i2 := OrdinalEnd(s, i1);
    OrdinalEndRun(s, i1);
    assert MarkerSplit(s, i0, i1, i2, MarkerSeparator(s).value);
  }

  /** A non-empty ordinal is one or two digits, or one to six numeral letters. */
  lemma OrdinalEndRun(s: string, j: nat)
    requires j <= |s|
    ensures var k := OrdinalEnd(s, j);
      k > j ==>
        || (k - j <= 2 && forall i :: j <= i < k ==> IsDigit(s[i]))
        || (k - j <= 6 && forall i :: j <= i < k ==> IsNumeralLetter(s[i]))
  {
    var t := s[j..];
    assert forall i :: 0 <= i < |t| ==> t[i] == s[j + i];
  }

  /** `MarkerSeparator` finds the separator at `k` exactly when `s` starts with a marker ending there. */
  lemma MarkerSeparatorExact(s: string, k: nat)
    ensures MarkerSeparator(s) == Some(k) <==> IsMarker(s, k)
  {
    if MarkerSeparator(s).Some? {
      MarkerSeparatorSound(s);
    }
    if IsMarker(s, k) {
      var i0, i1, i2 :| MarkerSplit(s, i0, i1, i2, k);
      MarkerSplitFound(s, i0, i1, i2, k);
    }
  }

  /**
   * The substitution removes a leading marker exactly when there is one: the
   * marker up to its separator and all whitespace after it.
   */
  lemma MarkerLengthExact(s: string, k: nat, j: nat)
    requires IsMarker(s, k) && k < j <= |s|
    requires forall i :: k < i < j ==> IsSpace(s[i])
    requires j == |s| || !IsSpace(s[j])
    ensures MarkerLength(s) == j
  {
    MarkerSeparatorExact(s, k);
    SkipWhitespaceAt(s, k + 1, j);
  }

  /** Without a leading marker nothing is removed. */
  lemma NoMarkerKept(s: string)
    requires forall k :: !IsMarker(s, k)
    ensures MarkerLength(s) == 0
  {
    if MarkerSeparator(s).Some? {
      MarkerSeparatorExact(s, MarkerSeparator(s).value);
    }
  }

  /** Every character before the separator belongs to the marker. */
  lemma MarkerChars(s: string)
    requires MarkerSeparator(s).Some?
    ensures forall i :: 0 <= i < MarkerSeparator(s).value ==> IsMarkerChar(s[i])
  {
  }

  /** A character that can stand in a marker before its separator. */
  predicate IsMarkerChar(c: char) {
    c == '(' || IsSpace(c) || IsDigit(c) || IsNumeralLetter(c)
  }

  /**
   * How many characters the marker substitution removes: the marker up to its
   * separator and the whitespace after it, or nothing when there is no marker.
   */
  function MarkerLength(s: string): (n: nat)
    ensures n <= |s|
    ensures n == 0 || n == |s| || !IsSpace(s[n])
    ensures n > 0 <==> MarkerSeparator(s).Some?
    ensures n > 0 ==> MarkerSeparator(s).value < n
    ensures n > 0 ==> forall i :: MarkerSeparator(s).value < i < n ==> IsSpace(s[i])
  {
    match MarkerSeparator(s)
    case None => 0
    case Some(k) => SkipWhitespace(s, k + 1)
  }

  /**
   * `normalize_heading`: strip, collapse whitespace runs to one space, drop
   * one leading ordinal marker, strip again and lowercase.
   */
  function NormalizeHeading(s: string): (r: string)
    ensures Trimmed(r) && SingleSpaced(r)
    ensures forall i :: 0 <= i < |r| ==> !IsAsciiUpper(r[i])
  {
    var c := CollapseSpaces(Strip(s));
    StripMarkerSpacing(c);
    LowerKeepsSpacing(Strip(c[MarkerLength(c)..]));
    Lower(Strip(c[MarkerLength(c)..]))
  }

  lemma StripMarkerSpacing(c: string)
    requires SingleSpaced(c)
    ensures SingleSpaced(Strip(c[MarkerLength(c)..]))
  {
    SingleSpacedSlice(c, MarkerLength(c), |c|);
    SingleSpacedStrip(c[MarkerLength(c)..]);
  }

  /** Lowercasing keeps a trimmed, single-spaced string so and leaves no upper-case letter. */
  lemma LowerKeepsSpacing(t: string)
    requires Trimmed(t) && SingleSpaced(t)
    ensures Trimmed(Lower(t)) && SingleSpaced(Lower(t))
    ensures forall i :: 0 <= i < |t| ==> !IsAsciiUpper(Lower(t)[i])
  {
    var r := Lower(t);
    forall i | 0 <= i < |t|
      ensures (IsSpace(r[i]) <==> IsSpace(t[i])) && (t[i] == ' ' <==> r[i] == ' ') && !IsAsciiUpper(r[i])
    {
      assert r[i] == LowerChar(t[i]);
    }
  }

  /** The ten section kinds a heading can be classified as. */
  datatype SectionTag =
    | Syllabus | Context | Analysis | Beyond | WayForward
    | Prelims | Exercise | Mains | Recall | Recap

  /** The substring tests of `classify_section`, in source order. */
  function ClassifyKey(t: string): Option<SectionTag> {
    if Contains(t, "syllabus mapping") then Some(Syllabus)
    else if Contains(t, "the context") || Contains(t, "why in news") then Some(Context)
    else if Contains(t, "key analysis") then Some(Analysis)
    else if Contains(t, "beyond the news") || Contains(t, "faculty value addition") || Contains(t, "value addition") then Some(Beyond)
    else if Contains(t, "way forward") then Some(WayForward)
    else if Contains(t, "prelims pointers") || Contains(t, "prelims pointer") then Some(Prelims)
    else if Contains(t, "exercise") then Some(Exercise)
    else if Contains(t, "mains practice question") then Some(Mains)
    else if Contains(t, "recall") then Some(Recall)
    else if Contains(t, "recap") then Some(Recap)
    else None
  }

  /** `classify_section`: the tag of a heading text, or None. */
  function ClassifySection(title: string): Option<SectionTag> {
    ClassifyKey(NormalizeHeading(title))
  }

  /** The keywords that select each tag, as `classify_section` lists them. */
  function Keywords(tag: SectionTag): (kws: seq<string>)
    ensures 1 <= |kws| <= 3
  {
    match tag
    case Syllabus => ["syllabus mapping"]
    case Context => ["the context", "why in news"]
    case Analysis => ["key analysis"]
    case Beyond => ["beyond the news", "faculty value addition", "value addition"]
    case WayForward => ["way forward"]
    case Prelims => ["prelims pointers", "prelims pointer"]
    case Exercise => ["exercise"]
    case Mains => ["mains practice question"]
    case Recall => ["recall"]
    case Recap => ["recap"]
  }

  /** The position of the tag's test in `classify_section`. */
  function Rank(tag: SectionTag): nat {
    match tag
    case Syllabus => 0
    case Context => 1
    case Analysis => 2
    case Beyond => 3
    case WayForward => 4
    case Prelims => 5
    case Exercise => 6
    case Mains => 7
    case Recall => 8
    case Recap => 9
  }

  /** Some keyword of `tag` occurs in `t`. */
  predicate Mentions(t: string, tag: SectionTag) {
    exists i :: 0 <= i < |Keywords(tag)| && Contains(t, Keywords(tag)[i])
  }

  /** `Mentions`, one keyword at a time. */
  lemma MentionsCases(t: string, tag: SectionTag)
    ensures Mentions(t, tag) <==>
      || Contains(t, Keywords(tag)[0])
      || (|Keywords(tag)| > 1 && Contains(t, Keywords(tag)[1]))
      || (|Keywords(tag)| > 2 && Contains(t, Keywords(tag)[2]))
  {
  }

  /** `Mentions` for each tag, with its keywords written out. */
  lemma MentionsEach(t: string)
    ensures Mentions(t, Syllabus) == Contains(t, "syllabus mapping")
    ensures Mentions(t, Context) == (Contains(t, "the context") || Contains(t, "why in news"))
    ensures Mentions(t, Analysis) == Contains(t, "key analysis")
    ensures Mentions(t, Beyond) ==
      (Contains(t, "beyond the news") || Contains(t, "faculty value addition") || Contains(t, "value addition"))
    ensures Mentions(t, WayForward) == Contains(t, "way forward")
    ensures Mentions(t, Prelims) == (Contains(t, "prelims pointers") || Contains(t, "prelims pointer"))
    ensures Mentions(t, Exercise) == Contains(t, "exercise")
    ensures Mentions(t, Mains) == Contains(t, "mains practice question")
    ensures Mentions(t, Recall) == Contains(t, "recall")
    ensures Mentions(t, Recap) == Contains(t, "recap")
  {
    MentionsCases(t, Syllabus);
    MentionsCases(t, Context);
    MentionsCases(t, Analysis);
    MentionsCases(t, Beyond);
    MentionsCases(t, WayForward);
    MentionsCases(t, Prelims);
    MentionsCases(t, Exercise);
    MentionsCases(t, Mains);
    MentionsCases(t, Recall);
    MentionsCases(t, Recap);
  }

  lemma AllTags(u: SectionTag)
    ensures u in {Syllabus, Context, Analysis, Beyond, WayForward, Prelims, Exercise, Mains, Recall, Recap}
  {
  }

  /**
   * The tag `classify_section` picks is the first one, in the order of its
   * tests, that the text mentions: "the context of key analysis" is a context
   * heading, "exercise recap" an exercise.
   */
  lemma ClassifyKeyFirstMatch(t: string, tag: SectionTag)
    ensures ClassifyKey(t) == Some(tag) <==>
      Mentions(t, tag) && forall u: SectionTag :: Rank(u) < Rank(tag) ==> !Mentions(t, u)
  {
    MentionsEach(t);
    AllTags(tag);
    if ClassifyKey(t) == Some(tag) {
      forall u: SectionTag | Rank(u) < Rank(tag)
        ensures !Mentions(t, u)
      {
        AllTags(u);
      }
    }
  }

  /** A text is unclassified exactly when it mentions no keyword at all. */
  lemma ClassifyKeyNone(t: string)
    ensures ClassifyKey(t).None? <==> forall u: SectionTag :: !Mentions(t, u)
  {
    MentionsEach(t);
    if ClassifyKey(t).None? {
      forall u: SectionTag
        ensures !Mentions(t, u)
      {
        AllTags(u);
      }
    }
  }

  /**
   * The shape all catalogue keywords share: the first character is not
   * whitespace, no character is a marker separator, and some character is a
   * lower-case letter outside `[ivxlcdm]`.
   */
  predicate IsKeyword(kw: string) {
    && kw != [] && !IsSpace(kw[0])
    && '.' !in kw && ')' !in kw && ':' !in kw && '-' !in kw
    && (exists i :: 0 <= i < |kw| && IsAsciiLower(kw[i]) && !IsNumeralLetter(kw[i]))
  }

  /** Lower-case words separated by spaces, with a letter outside `[ivxlcdm]` at `w`, have the keyword shape. */
  lemma PlainKeyword(kw: string, w: nat)
    requires kw != [] && kw[0] != ' '
    requires forall i :: 0 <= i < |kw| ==> kw[i] == ' ' || IsAsciiLower(kw[i])
    requires w < |kw| && kw[w] != ' ' && !IsNumeralLetter(kw[w])
    ensures IsKeyword(kw)
  {
  }

  /** Every keyword `classify_section` looks for has the keyword shape. */
  lemma CatalogueKeyword(tag: SectionTag, i: nat)
    requires i < |Keywords(tag)|
    ensures IsKeyword(Keywords(tag)[i])
  {
    if tag.Beyond? {
      BeyondKeywords(i);
    } else if tag.Context? || tag.Prelims? {
      TwoKeywords(tag, i);
    } else {
      OneKeyword(tag);
    }
  }

  lemma BeyondKeywords(i: nat)
    requires i < 3
    ensures IsKeyword(Keywords(Beyond)[i])
  {
    if i == 0 { PlainKeyword("beyond the news", 0); }
    else if i == 1 { PlainKeyword("faculty value addition", 0); }
    else { PlainKeyword("value addition", 1); }
  }

  lemma TwoKeywords(tag: SectionTag, i: nat)
    requires (tag.Context? || tag.Prelims?) && i < 2
    ensures |Keywords(tag)| == 2 && IsKeyword(Keywords(tag)[i])
  {
    match tag
    case Context =>
      if i == 0 { PlainKeyword("the context", 0); }
      else { PlainKeyword("why in news", 0); }
    case Prelims =>
      if i == 0 { PlainKeyword("prelims pointers", 0); }
      else { PlainKeyword("prelims pointer", 0); }
  }

  lemma OneKeyword(tag: SectionTag)
    requires !(tag.Context? || tag.Beyond? || tag.Prelims?)
    ensures |Keywords(tag)| == 1 && IsKeyword(Keywords(tag)[0])
  {
    match tag
    case Syllabus => PlainKeyword("syllabus mapping", 0);
    case Analysis => PlainKeyword("key analysis", 0);
    case WayForward => PlainKeyword("way forward", 0);
    case Exercise => PlainKeyword("exercise", 0);
    case Mains => PlainKeyword("mains practice question", 1);
    case Recall => PlainKeyword("recall", 0);
    case Recap => PlainKeyword("recap", 0);
  }

  /** Lower-casing a marker character never yields a letter outside `[ivxlcdm]`. */
  lemma LowerMarkerChar(c: char)
    requires IsMarkerChar(c)
    ensures !(IsAsciiLower(LowerChar(c)) && !IsNumeralLetter(LowerChar(c)))
  {
  }

  lemma OccursAtIndex(t: string, kw: string, j: nat, i: nat)
    requires j + |kw| <= |t| && OccursAt(t, kw, j) && i < |kw|
    ensures t[j + i] == kw[i]
  {
    assert t[j..j + |kw|][i] == t[j + i];
  }

  /** No keyword starts inside the leading marker. */
  lemma NoKeywordInMarker(x: string, kw: string, j: nat)
    requires IsKeyword(kw)
    requires j < MarkerLength(x) && j + |kw| <= |x|
    ensures !OccursAt(Lower(x), kw, j)
  {
    MarkerChars(x);
    var k := MarkerSeparator(x).value;
    if OccursAt(Lower(x), kw, j) {
      if j + |kw| <= k {
        NoKeywordBeforeSeparator(x, kw, j, k);
      } else if j <= k {
        NoKeywordAcrossSeparator(x, kw, j, k);
      } else {
        NoKeywordAfterSeparator(x, kw, j);
      }
    }
  }

  lemma NoKeywordAfterSeparator(x: string, kw: string, j: nat)
    requires IsKeyword(kw) && j + |kw| <= |x| && IsSpace(x[j])
    ensures !OccursAt(Lower(x), kw, j)
  {
    if OccursAt(Lower(x), kw, j) {
      OccursAtIndex(Lower(x), kw, j, 0);
      assert false;
    }
  }

  lemma NoKeywordBeforeSeparator(x: string, kw: string, j: nat, k: nat)
    requires IsKeyword(kw) && k < |x| && j + |kw| <= k
    requires forall i :: 0 <= i < k ==> IsMarkerChar(x[i])
    ensures !OccursAt(Lower(x), kw, j)
  {
    if OccursAt(Lower(x), kw, j) {
      var w :| 0 <= w < |kw| && IsAsciiLower(kw[w]) && !IsNumeralLetter(kw[w]);
      OccursAtIndex(Lower(x), kw, j, w);
      LowerMarkerChar(x[j + w]);
      assert false;
    }
  }

  lemma NoKeywordAcrossSeparator(x: string, kw: string, j: nat, k: nat)
    requires IsKeyword(kw) && j <= k < j + |kw| <= |x|
    requires IsMarkerSeparator(x[k])
    ensures !OccursAt(Lower(x), kw, j)
  {
    if OccursAt(Lower(x), kw, j) {
      OccursAtIndex(Lower(x), kw, j, k - j);
      assert false;
    }
  }

  lemma OccursAtShift(t: string, n: nat, kw: string, j: nat)
    requires n <= j && j + |kw| <= |t|
    ensures OccursAt(t[n..], kw, j - n) <==> OccursAt(t, kw, j)
  {
    assert t[n..][j - n..j - n + |kw|] == t[j..j + |kw|];
  }

  /** A keyword occurs in the lower-cased text exactly when it occurs after the leading marker. */
  lemma KeywordAfterMarker(x: string, kw: string)
    requires IsKeyword(kw)
    ensures Contains(Lower(x), kw) <==> Contains(Lower(x)[MarkerLength(x)..], kw)
  {
    ContainsInSuffix(Lower(x), MarkerLength(x), kw);
    KeywordInTextIsInRest(x, kw);
  }

  lemma KeywordInTextIsInRest(x: string, kw: string)
    requires IsKeyword(kw)
    ensures Contains(Lower(x), kw) ==> Contains(Lower(x)[MarkerLength(x)..], kw)
  {
    var n := MarkerLength(x);
    var lx := Lower(x);
    if Contains(lx, kw) {
      var j :| 0 <= j <= |lx| - |kw| && OccursAt(lx, kw, j);
      if j < n {
        NoKeywordInMarker(x, kw, j);
      } else {
        OccursAtShift(lx, n, kw, j);
      }
    }
  }

  /** Dropping the leading marker never changes which keyword test fires first. */
  lemma ClassifyKeyAfterMarker(x: string)
    ensures ClassifyKey(Lower(x)) == ClassifyKey(Lower(x)[MarkerLength(x)..])
  {
    var rest := Lower(x)[MarkerLength(x)..];
    forall tag: SectionTag
      ensures Mentions(Lower(x), tag) == Mentions(rest, tag)
    {
      forall i | 0 <= i < |Keywords(tag)|
        ensures Contains(Lower(x), Keywords(tag)[i]) == Contains(rest, Keywords(tag)[i])
      {
        CatalogueKeyword(tag, i);
        KeywordAfterMarker(x, Keywords(tag)[i]);
      }
    }
    ClassifyKeyByMentions(Lower(x), rest);
  }

  /** Texts that mention the same tags are classified alike. */
  lemma ClassifyKeyByMentions(a: string, b: string)
    requires forall tag: SectionTag :: Mentions(a, tag) == Mentions(b, tag)
    ensures ClassifyKey(a) == ClassifyKey(b)
  {
    MentionsEach(a);
    MentionsEach(b);
    assert Mentions(a, Syllabus) == Mentions(b, Syllabus);
    assert Mentions(a, Context) == Mentions(b, Context);
    assert Mentions(a, Analysis) == Mentions(b, Analysis);
    assert Mentions(a, Beyond) == Mentions(b, Beyond);
    assert Mentions(a, WayForward) == Mentions(b, WayForward);
    assert Mentions(a, Prelims) == Mentions(b, Prelims);
    assert Mentions(a, Exercise) == Mentions(b, Exercise);
    assert Mentions(a, Mains) == Mentions(b, Mains);
    assert Mentions(a, Recall) == Mentions(b, Recall);
  }

  lemma CollapseKeepsTrimmed(s: string)
    requires Trimmed(s)
    ensures Trimmed(CollapseSpaces(s))
  {
    if s != [] {
      CollapseLast(s);
    }
  }

  /** What follows a marker in a trimmed string is trimmed. */
  lemma MarkerRestTrimmed(c: string)
    requires Trimmed(c)
    ensures Trimmed(c[MarkerLength(c)..])
  {
    SuffixTrimmed(c, MarkerLength(c));
  }

  lemma LowerSuffix(s: string, n: nat)
    requires n <= |s|
    ensures Lower(s[n..]) == Lower(s)[n..]
  {
  }

  /**
   * The normalised heading is the lower-cased, whitespace-collapsed title with
   * its marker cut off: the second strip never removes anything.
   */
  lemma NormalizeHeadingDropsMarker(t: string)
    ensures var c := CollapseSpaces(Strip(t));
      NormalizeHeading(t) == Lower(c)[MarkerLength(c)..]
  {
    var c := CollapseSpaces(Strip(t));
    CollapseKeepsTrimmed(Strip(t));
    MarkerRestTrimmed(c);
    LowerSuffix(c, MarkerLength(c));
  }

  /**
   * `classify_section` searches the whole lower-cased, whitespace-collapsed
   * title: removing a leading ordinal marker changes no keyword test.
   */
  lemma ClassifyIgnoresMarker(t: string)
    ensures ClassifySection(t) == ClassifyKey(Lower(CollapseSpaces(Strip(t))))
  {
    NormalizeHeadingDropsMarker(t);
    ClassifyKeyAfterMarker(CollapseSpaces(Strip(t)));
  }

  predicate AllDigits(d: string) {
    forall i :: 0 <= i < |d| ==> IsDigit(d[i])
  }

  /** A one- or two-digit number followed by `. ` is a marker, and it is removed with that space. */
  lemma DigitMarker(d: string, t: string)
    requires 1 <= |d| <= 2 && AllDigits(d)
    requires t != [] && !IsSpace(t[0])
    ensures MarkerSeparator(d + ". " + t) == Some(|d|)
    ensures MarkerLength(d + ". " + t) == |d| + 2
  {
    var s := d + ". " + t;
    assert MarkerSplit(s, 0, 0, |d|, |d|) by {
      assert forall i :: 0 <= i < |d| ==> s[i] == d[i];
      assert s[|d|] == '.';
    }
    assert s[|d| + 1] == ' ' && s[|d| + 2] == t[0];
    MarkerWithSpaces(s, 0, 0, |d|, |d|, |d| + 2);
  }

  /** A run of three or more digits is not an ordinal, so `123. x` keeps its number. */
  lemma LongNumberIsNoMarker(d: string, t: string)
    requires |d| >= 3 && AllDigits(d)
    ensures MarkerSeparator(d + t) == None
    ensures MarkerLength(d + t) == 0
  {
    var s := d + t;
    assert s[0] == d[0] && s[1] == d[1] && s[2] == d[2];
    SkipWhitespaceAt(s, 0, 0);
    assert s[0..] == s;
    assert LeadingDigits(s) >= 3 by {
      assert s[1..][0] == d[1] && s[1..][1..][0] == d[2];
    }
    assert OrdinalEnd(s, 0) == 0;
  }

  /** A parenthesised Roman numeral of at most six letters followed by `) ` is a marker. */
  lemma RomanMarker(r: string, t: string)
    requires 1 <= |r| <= 6 && forall i :: 0 <= i < |r| ==> IsNumeralLetter(r[i])
    requires t != [] && !IsSpace(t[0])
    ensures MarkerSeparator("(" + r + ") " + t) == Some(|r| + 1)
    ensures MarkerLength("(" + r + ") " + t) == |r| + 3
  {
    var s := "(" + r + ") " + t;
    assert MarkerSplit(s, 1, 1, |r| + 1, |r| + 1) by {
      assert forall i :: 1 <= i <= |r| ==> s[i] == r[i - 1];
      assert s[0] == '(' && s[|r| + 1] == ')';
    }
    assert s[|r| + 2] == ' ' && s[|r| + 3] == t[0];
    MarkerWithSpaces(s, 1, 1, |r| + 1, |r| + 1, |r| + 3);
  }

  /**
   * On an already normal title (trimmed, single-spaced), putting a marker in
   * front of a heading does not change its classification.
   */
  lemma ClassifyUnderMarker(m: string, t: string)
    requires Trimmed(m + t) && SingleSpaced(m + t)
    requires MarkerLength(m + t) == |m|
    ensures ClassifySection(m + t) == ClassifySection(t)
  {
    var c := m + t;
    CollapseSingleSpaced(c);
    NormalizeHeadingDropsMarker(c);
    assert c[|m|..] == t;
    LowerSuffix(c, |m|);
    MarkerRestTrimmed(c);
    SingleSpacedSlice(c, |m|, |c|);
    CollapseSingleSpaced(t);
    ClassifyIgnoresMarker(t);
    ClassifyKeyAfterMarker(t);
  }

  /**
   * On a normal title (trimmed, single-spaced) that starts with a marker `m`,
   * normalisation drops exactly the marker and lower-cases the rest.
   */
  lemma NormalizeMarked(m: string, t: string)
    requires Trimmed(m + t) && SingleSpaced(m + t)
    requires MarkerLength(m + t) == |m|
    ensures NormalizeHeading(m + t) == Lower(t)
  {
    var c := m + t;
    CollapseSingleSpaced(c);
    NormalizeHeadingDropsMarker(c);
    assert c[|m|..] == t;
    LowerSuffix(c, |m|);
  }

  /** A one- or two-digit marker `N. ` is dropped: `1. Key Analysis` and `1. 2. x` lose their `1. `. */
  lemma NormalizeDigitMarked(d: string, t: string)
    requires 1 <= |d| <= 2 && AllDigits(d)
    requires t != [] && Trimmed(t) && SingleSpaced(t)
    ensures NormalizeHeading(d + ". " + t) == Lower(t)
  {
    DigitMarker(d, t);
    DigitPrefixShape(d);
    MarkedIsNormal(d + ". ", t);
    NormalizeMarked(d + ". ", t);
  }

  /** A parenthesised marker `(ii) ` is dropped. */
  lemma NormalizeRomanMarked(r: string, t: string)
    requires 1 <= |r| <= 6 && forall i :: 0 <= i < |r| ==> IsNumeralLetter(r[i])
    requires t != [] && Trimmed(t) && SingleSpaced(t)
    ensures NormalizeHeading("(" + r + ") " + t) == Lower(t)
  {
    RomanMarker(r, t);
    RomanPrefixShape(r);
    MarkedIsNormal("(" + r + ") ", t);
    NormalizeMarked("(" + r + ") ", t);
  }

  /** A marker as written before a title: no whitespace but the one space that ends it. */
  predicate MarkerPrefix(m: string) {
    && |m| >= 2 && m[|m| - 1] == ' '
    && forall i :: 0 <= i < |m| - 1 ==> !IsSpace(m[i])
  }

  lemma DigitPrefixShape(d: string)
    requires AllDigits(d)
    ensures MarkerPrefix(d + ". ")
  {
    var m := d + ". ";
    forall i | 0 <= i < |m| - 1
      ensures !IsSpace(m[i])
    {
      if i < |d| {
        assert m[i] == d[i];
      }
    }
  }

  lemma RomanPrefixShape(r: string)
    requires forall i :: 0 <= i < |r| ==> IsNumeralLetter(r[i])
    ensures MarkerPrefix("(" + r + ") ")
    ensures |"(" + r + ") "| == |r| + 3
  {
    var m := "(" + r + ") ";
    forall i | 0 <= i < |m| - 1
      ensures !IsSpace(m[i])
    {
      if 1 <= i <= |r| {
        assert m[i] == r[i - 1];
        NumeralNotSpace(r[i - 1]);
      }
    }
  }

  lemma NumeralNotSpace(c: char)
    requires IsNumeralLetter(c)
    ensures !IsSpace(c)
  {
  }

  /** A marker prefix before a trimmed, single-spaced title gives a trimmed, single-spaced heading. */
  lemma MarkedIsNormal(m: string, t: string)
    requires MarkerPrefix(m)
    requires t != [] && Trimmed(t) && SingleSpaced(t)
    ensures Trimmed(m + t) && SingleSpaced(m + t)
  {
    var c := m + t;
    assert c[0] == m[0] && c[|c| - 1] == t[|t| - 1];
    forall i | 0 <= i < |c| && IsSpace(c[i])
      ensures c[i] == ' '
    {
      if i >= |m| {
        assert c[i] == t[i - |m|];
      }
    }
    forall i | 0 <= i < |c| - 1
      ensures !(c[i] == ' ' && c[i + 1] == ' ')
    {
      if i >= |m| {
        assert c[i] == t[i - |m|] && c[i + 1] == t[i + 1 - |m|];
      } else if i == |m| - 1 {
        assert c[i + 1] == t[0];
      } else {
        assert c[i] == m[i];
      }
    }
  }

  /** A title that starts with a letter outside `[ivxlcdm]` has no marker: `Key Analysis` is only lower-cased. */
  lemma NormalizeUnmarked(t: string)
    requires t != [] && Trimmed(t) && SingleSpaced(t)
    requires t[0] != '(' && !IsDigit(t[0]) && !IsNumeralLetter(t[0])
    ensures NormalizeHeading(t) == Lower(t)
  {
    assert LeadingSpaces(t) == 0 && LeadingDigits(t) == 0 && LeadingNumerals(t) == 0;
    assert MarkerSeparator(t) == None;
    assert [] + t == t;
    NormalizeMarked([], t);
  }

  /** Three or more digits are no ordinal: `123. x` keeps its number. */
  lemma NormalizeLongNumber(d: string, t: string)
    requires |d| >= 3 && AllDigits(d)
    requires Trimmed(d + t) && SingleSpaced(d + t)
    ensures NormalizeHeading(d + t) == Lower(d + t)
  {
    LongNumberIsNoMarker(d, t);
    assert [] + (d + t) == d + t;
    NormalizeMarked([], d + t);
  }

  /**
   * The marker is a regular expression, not a Roman numeral parser: any run of
   * one to six letters of `ivxlcdm` before a separator is one, so `Civil: x`
   * loses `Civil: `.
   */
  lemma NumeralWordMarker(r: string, t: string)
    requires 1 <= |r| <= 6 && forall i :: 0 <= i < |r| ==> IsNumeralLetter(r[i])
    requires t != [] && !IsSpace(t[0])
    ensures MarkerSeparator(r + ": " + t) == Some(|r|)
    ensures MarkerLength(r + ": " + t) == |r| + 2
  {
    var s := r + ": " + t;
    assert MarkerSplit(s, 0, 0, |r|, |r|) by {
      assert forall i :: 0 <= i < |r| ==> s[i] == r[i];
      assert s[|r|] == ':';
    }
    assert s[|r| + 1] == ' ' && s[|r| + 2] == t[0];
    MarkerWithSpaces(s, 0, 0, |r|, |r|, |r| + 2);
  }

  lemma NormalizeNumeralWordMarked(r: string, t: string)
    requires 1 <= |r| <= 6 && forall i :: 0 <= i < |r| ==> IsNumeralLetter(r[i])
    requires t != [] && Trimmed(t) && SingleSpaced(t)
    ensures NormalizeHeading(r + ": " + t) == Lower(t)
  {
    NumeralWordMarker(r, t);
    WordPrefixShape(r);
    MarkedIsNormal(r + ": ", t);
    NormalizeMarked(r + ": ", t);
  }

  lemma WordPrefixShape(r: string)
    requires forall i :: 0 <= i < |r| ==> IsNumeralLetter(r[i])
    ensures MarkerPrefix(r + ": ")
  {
    var m := r + ": ";
    forall i | 0 <= i < |m| - 1
      ensures !IsSpace(m[i])
    {
      if i < |r| {
        assert m[i] == r[i];
        NumeralNotSpace(r[i]);
      }
    }
  }
}

/**
 Filename normalisation (`parse_filename`) and the level token that `main`
 reads with `^Lvl (\d+)`. A filename such as
 `Lvl 3 Storm hits city _ Breaking News English.docx` yields level 3 and the
 slug `storm-hits-city`.
 */
module Filename {
  import opened Options
  import opened Text

  const Extension := ".docx"
  const LevelTag := "Lvl "
  const Attribution := "Breaking News English"

  // ---------------------------------------------------------------------------
  // Step 1: `filename.replace('.docx', '')`
  // ---------------------------------------------------------------------------

  /** Removes every `.docx`, scanning left to right without overlap as `str.replace` does. */
  function RemoveExtension(s: string): (r: string)
    ensures |r| <= |s|
    decreases |s|
  {
    if StartsWith(s, Extension) then RemoveExtension(s[|Extension|..])
    else if s == [] then []
    else [s[0]] + RemoveExtension(s[1..])
  }

  /** A name with no dot in it has nothing to remove. */
  lemma {:induction false} RemoveExtensionNoDot(s: string)
    requires '.' !in s
    ensures RemoveExtension(s) == s
    decreases |s|
  {
    if s != [] {
      assert s[0] != '.';
      assert |Extension| <= |s| ==> s[..|Extension|][0] == s[0];
      assert !StartsWith(s, Extension);
      assert forall c :: c in s[1..] ==> c in s;
      RemoveExtensionNoDot(s[1..]);
      assert [s[0]] + s[1..] == s;
    }
  }

  /** The trailing extension disappears and the stem is treated as on its own. */
  lemma {:induction false} RemoveExtensionTrailing(a: string)
    ensures RemoveExtension(a + Extension) == RemoveExtension(a)
    decreases |a|
  {
    var s := a + Extension;
    if a == [] {
      assert s == Extension;
      assert s[|Extension|..] == [];
    } else if StartsWith(a, Extension) {
      assert s[..|Extension|] == a[..|Extension|];
      assert s[|Extension|..] == a[|Extension|..] + Extension;
      RemoveExtensionTrailing(a[|Extension|..]);
    } else {
      if |a| < |Extension| {
        assert s[|a|] == '.';
        if StartsWith(s, Extension) {
          assert false;
        }
      } else {
        assert s[..|Extension|] == a[..|Extension|];
      }
      assert s[1..] == a[1..] + Extension;
      RemoveExtensionTrailing(a[1..]);
    }
  }

  /** Text without a dot is copied unchanged, whatever follows it. */
  lemma {:induction false} RemoveExtensionDotFree(a: string, b: string)
    requires '.' !in a
    ensures RemoveExtension(a + b) == a + RemoveExtension(b)
    decreases |a|
  {
    if a == [] {
      assert a + b == b;
    } else {
      var s := a + b;
      assert s[0] == a[0] != '.';
      assert |Extension| <= |s| ==> s[..|Extension|][0] == s[0];
      assert !StartsWith(s, Extension);
      assert s[1..] == a[1..] + b;
      assert forall c :: c in a[1..] ==> c in a;
      RemoveExtensionDotFree(a[1..], b);
      assert [a[0]] + a[1..] == a;
    }
  }

  /** A character that does not open `.docx` is copied and the scan goes on after it. */
  lemma RemoveExtensionKeeps(c: char, b: string)
    requires !StartsWith([c] + b, Extension)
    ensures RemoveExtension([c] + b) == [c] + RemoveExtension(b)
  {
    assert ([c] + b)[0] == c;
    assert ([c] + b)[1..] == b;
  }

  /**
   A `.docx` at the scan position is dropped and the scan resumes after it, so
   with `RemoveExtensionDotFree` every occurrence between dot-free pieces goes.
   */
  lemma RemoveExtensionDrops(b: string)
    ensures RemoveExtension(Extension + b) == RemoveExtension(b)
  {
    var s := Extension + b;
    assert s[..|Extension|] == Extension;
    assert s[|Extension|..] == b;
  }

  // ---------------------------------------------------------------------------
  // Step 2: `re.sub(r'^Lvl \d+\s*', '', name)` and `re.search(r'^Lvl (\d+)', name)`
  // ---------------------------------------------------------------------------

  /** `^Lvl \d` matches at the start of `s`. */
  predicate HasLevelToken(s: string) {
    |s| > |LevelTag| && s[..|LevelTag|] == LevelTag && IsDigit(s[|LevelTag|])
  }

  /** Removes a leading `Lvl `, the digit run after it and the whitespace after that. */
  function StripLevelPrefix(s: string): (r: string)
    ensures !HasLevelToken(s) ==> r == s
    ensures HasLevelToken(s) ==> |r| < |s| && r == s[|s| - |r|..]
    ensures HasLevelToken(s) ==> r == [] || !IsSpace(r[0])
  {
    if HasLevelToken(s) then
      var t := s[|LevelTag|..];
      var u := t[DigitRun(t)..];
      assert u == s[|s| - |u|..];
      u[LeadingSpaces(u)..]
    else
      s
  }

  /** Greedy matching: the prefix removed is the whole digit run and the whole whitespace run. */
  lemma StripLevelPrefixSpec(digits: string, ws: string, rest: string)
    requires digits != [] && AllDigits(digits) && AllSpace(ws)
    requires rest == [] || !IsSpace(rest[0])
    requires ws == [] ==> rest == [] || !IsDigit(rest[0])
    ensures StripLevelPrefix(LevelTag + digits + ws + rest) == rest
  {
    var s := LevelTag + digits + ws + rest;
    assert s[..|LevelTag|] == LevelTag;
    assert s[|LevelTag|] == digits[0];
    var t := s[|LevelTag|..];
    assert t == digits + (ws + rest);
    DigitRunExact(t, |digits|);
    var u := t[|digits|..];
    assert u == ws + rest;
    LeadingSpacesExact(u, |ws|);
  }

  /** The level captured by `^Lvl (\d+)`, as `int()` reads it; `None` is the skip signal. */
  function LevelToken(name: string): (r: Option<nat>)
    ensures r.None? <==> !HasLevelToken(name)
  {
    if HasLevelToken(name) then
      var t := name[|LevelTag|..];
      Some(DigitsValue(t[..DigitRun(t)]))
    else
      None
  }

  /** The captured level is the value of the whole digit run after `Lvl `. */
  lemma LevelTokenSpec(digits: string, rest: string)
    requires digits != [] && AllDigits(digits)
    requires rest == [] || !IsDigit(rest[0])
    ensures LevelToken(LevelTag + digits + rest) == Some(DigitsValue(digits))
  {
    var s := LevelTag + digits + rest;
    assert s[..|LevelTag|] == LevelTag;
    assert s[|LevelTag|] == digits[0];
    var t := s[|LevelTag|..];
    assert t == digits + rest;
    DigitRunExact(t, |digits|);
    assert t[..|digits|] == digits;
  }

  // ---------------------------------------------------------------------------
  // Step 3: `re.sub(r'\s*_\s*Breaking News English.*$', '', name)`
  // ---------------------------------------------------------------------------

  /** `.*$` can match `t`: no newline in it except possibly as its last character. */
  predicate LineTail(t: string) {
    forall m :: 0 <= m < |t| - 1 ==> t[m] != '\n'
  }

  /** The attribution pattern matches starting at index `i` of `s`. */
  predicate AttributionAt(s: string, i: nat) {
    && i <= |s|
    && var j := i + LeadingSpaces(s[i..]);
    && j < |s|
    && s[j] == '_'
    && var k := j + 1 + LeadingSpaces(s[j + 1..]);
    && OccursAt(s, Attribution, k)
    && LineTail(s[k + |Attribution|..])
  }

  /** `$` matches before a final newline, so a final newline is not part of the match. */
  function KeptNewline(s: string): string {
    if s != [] && s[|s| - 1] == '\n' then "\n" else ""
  }

  function AttributionFrom(s: string, i: nat): (r: Option<nat>)
    requires i <= |s|
    ensures r.None? ==> forall k: nat :: i <= k ==> !AttributionAt(s, k)
    ensures r.Some? ==> i <= r.value <= |s| && AttributionAt(s, r.value)
    ensures r.Some? ==> forall k: nat :: i <= k < r.value ==> !AttributionAt(s, k)
    decreases |s| - i
  {
    if AttributionAt(s, i) then Some(i)
    else if i == |s| then None
    else AttributionFrom(s, i + 1)
  }

  /** Removes the attribution suffix from its leftmost match to the end. */
  function StripAttribution(s: string): (r: string)
    ensures (forall i: nat :: !AttributionAt(s, i)) ==> r == s
    ensures forall i: nat ::
              AttributionAt(s, i) && (forall k: nat :: k < i ==> !AttributionAt(s, k)) ==>
                r == s[..i] + KeptNewline(s)
  {
    match AttributionFrom(s, 0)
    case None => s
    case Some(i) => s[..i] + KeptNewline(s)
  }

  // ---------------------------------------------------------------------------
  // Step 4: slugify
  // ---------------------------------------------------------------------------

  /** `[a-zA-Z0-9\s-]` */
  predicate SlugSourceChar(c: char) {
    IsUpper(c) || IsLowerLetter(c) || IsDigit(c) || IsSpace(c) || c == '-'
  }

  predicate SlugChar(c: char) {
    IsLowerLetter(c) || IsDigit(c) || c == '-'
  }

  /** Only lower-case ASCII letters, digits and hyphens. */
  predicate IsSlug(s: string) {
    forall i :: 0 <= i < |s| ==> SlugChar(s[i])
  }

  /** `re.sub(r'[^a-zA-Z0-9\s-]', '', s)` */
  function KeepSlugChars(s: string): (r: string)
    ensures forall i :: 0 <= i < |r| ==> SlugSourceChar(r[i])
  {
    if s == [] then []
    else (if SlugSourceChar(s[0]) then [s[0]] else []) + KeepSlugChars(s[1..])
  }

  /** `re.sub(r'\s+', '-', s)`: each maximal whitespace run becomes one hyphen. */
  function Hyphenate(s: string): string
    decreases |s|
  {
    if s == [] then []
    else if IsSpace(s[0]) then "-" + Hyphenate(s[LeadingSpaces(s)..])
    else [s[0]] + Hyphenate(s[1..])
  }

  /** The result has no whitespace: every character is `-` or a non-space character of the input. */
  lemma {:induction false} HyphenateAlphabet(s: string)
    ensures forall i :: 0 <= i < |Hyphenate(s)| ==>
              Hyphenate(s)[i] == '-' || (!IsSpace(Hyphenate(s)[i]) && Hyphenate(s)[i] in s)
    decreases |s|
  {
    if s == [] {
    } else if IsSpace(s[0]) {
      var t := s[LeadingSpaces(s)..];
      HyphenateAlphabet(t);
      assert forall c :: c in t ==> c in s;
      assert Hyphenate(s) == "-" + Hyphenate(t);
    } else {
      HyphenateAlphabet(s[1..]);
      assert forall c :: c in s[1..] ==> c in s;
      assert Hyphenate(s) == [s[0]] + Hyphenate(s[1..]);
    }
  }

  /** Filtering distributes over concatenation, so kept characters stay in order. */
  lemma {:induction false} KeepSlugCharsAppend(a: string, b: string)
    ensures KeepSlugChars(a + b) == KeepSlugChars(a) + KeepSlugChars(b)
    decreases |a|
  {
    if a == [] {
      assert a + b == b;
    } else {
      assert (a + b)[0] == a[0];
      assert (a + b)[1..] == a[1..] + b;
      KeepSlugCharsAppend(a[1..], b);
    }
  }

  /** A single character is kept exactly when it is in `[a-zA-Z0-9\s-]`. */
  lemma KeepSlugCharsOne(c: char)
    ensures KeepSlugChars([c]) == if SlugSourceChar(c) then [c] else []
  {
    assert [c][1..] == [];
  }

  /** A non-space character is copied and the scan goes on after it. */
  lemma HyphenateKeeps(c: char, s: string)
    requires !IsSpace(c)
    ensures Hyphenate([c] + s) == [c] + Hyphenate(s)
  {
    assert ([c] + s)[0] == c;
    assert ([c] + s)[1..] == s;
  }

  /** A run of non-space characters is copied as it is. */
  lemma {:induction false} HyphenateWord(a: string, s: string)
    requires forall i :: 0 <= i < |a| ==> !IsSpace(a[i])
    ensures Hyphenate(a + s) == a + Hyphenate(s)
    decreases |a|
  {
    if a == [] {
      assert a + s == s;
    } else {
      HyphenateWord(a[1..], s);
      HyphenateWordStep(a, s);
    }
  }

  /** One step of `HyphenateWord`: copying the first character extends the copied run. */
  lemma HyphenateWordStep(a: string, s: string)
    requires a != [] && !IsSpace(a[0])
    requires Hyphenate(a[1..] + s) == a[1..] + Hyphenate(s)
    ensures Hyphenate(a + s) == a + Hyphenate(s)
  {
    ConsSplit(a, s);
    ConsSplit(a, Hyphenate(s));
    HyphenateKeeps(a[0], a[1..] + s);
  }

  /** A non-empty sequence is its head followed by its tail, also in front of more elements. */
  lemma ConsSplit<T>(a: seq<T>, u: seq<T>)
    requires a != []
    ensures a + u == [a[0]] + (a[1..] + u)
  {
  }

  /** A maximal whitespace run becomes exactly one hyphen. */
  lemma HyphenateRun(w: string, b: string)
    requires w != [] && AllSpace(w)
    requires b == [] || !IsSpace(b[0])
    ensures Hyphenate(w + b) == "-" + Hyphenate(b)
  {
    var s := w + b;
    assert s[..|w|] == w;
    assert |w| < |s| ==> s[|w|] == b[0];
    LeadingSpacesExact(s, |w|);
    assert s[|w|..] == b;
  }

  /** Keep `[a-zA-Z0-9\s-]`, lower-case, trim, and turn whitespace runs into hyphens. */
  function Slugify(s: string): (r: string)
    ensures IsSlug(r)
  {
    var kept := KeepSlugChars(s);
    var lowered := Lower(kept);
    assert forall c :: c in lowered ==> IsLowerLetter(c) || IsDigit(c) || IsSpace(c) || c == '-';
    var trimmed := Strip(lowered);
    HyphenateAlphabet(trimmed);
    assert forall c :: c in trimmed ==> c in lowered;
    var r := Hyphenate(trimmed);
    assert forall i :: 0 <= i < |r| ==> r[i] == '-' || (!IsSpace(r[i]) && r[i] in lowered);
    r
  }

  /** Python's `parse_filename`: the article slug of a filename. */
  function ParseFilename(name: string): (slug: string)
    ensures IsSlug(slug)
  {
    Slugify(StripAttribution(StripLevelPrefix(RemoveExtension(name))))
  }

  // ---------------------------------------------------------------------------
  // A whole filename
  // ---------------------------------------------------------------------------

  /** What closes a downloaded file's title before the extension. */
  const TitleSuffix := " _ " + Attribution

  /** The pattern matches where the suffix begins. */
  lemma AttributionAtTitleEnd(title: string)
    ensures AttributionAt(title + TitleSuffix, |title|)
  {
    var s := title + TitleSuffix;
    assert s[|title|..] == TitleSuffix;
    AttributionAtSuffix(s, |title|);
  }

  /** Wherever the suffix begins, the pattern matches. */
  lemma AttributionAtSuffix(s: string, p: nat)
    requires p <= |s| && s[p..] == TitleSuffix
    ensures AttributionAt(s, p)
  {
    SuffixShape(s, p);
    var j := p + LeadingSpaces(s[p..]);
    var k := j + 1 + LeadingSpaces(s[j + 1..]);
    assert k == p + 3;
    assert s[k + |Attribution|..] == [];
    assert LineTail(s[k + |Attribution|..]);
  }

  /** The pieces of the suffix as the pattern sees them: one space, `_`, one space, the attribution. */
  lemma SuffixShape(s: string, p: nat)
    requires p <= |s| && s[p..] == TitleSuffix
    ensures |s| == p + 3 + |Attribution|
    ensures LeadingSpaces(s[p..]) == 1 && s[p + 1] == '_'
    ensures LeadingSpaces(s[p + 2..]) == 1
    ensures OccursAt(s, Attribution, p + 3)
  {
    assert TitleSuffix[..3] == " _ " && TitleSuffix[3..] == Attribution;
    LeadingSpacesExact(s[p..], 1);
    assert s[p + 2..] == TitleSuffix[2..];
    LeadingSpacesExact(s[p + 2..], 1);
    assert s[p + 3..] == Attribution;
  }

  /** Inside the title the whitespace run ends before the title does and meets no `_`. */
  lemma NoAttributionWithinTitle(title: string, i: nat)
    requires i < |title| && !IsSpace(title[|title| - 1]) && '_' !in title
    ensures !AttributionAt(title + TitleSuffix, i)
  {
    var s := title + TitleSuffix;
    var p := |title|;
    var n := LeadingSpaces(s[i..]);
    assert s[i..][p - 1 - i] == title[p - 1];
    assert n <= p - 1 - i;
    assert s[i + n] == title[i + n];
    assert title[i + n] in title;
  }

  /** The attribution after a trimmed, underscore-free title is cut exactly at the title's end. */
  lemma StripAttributionAfterTitle(title: string)
    requires title != [] && Trimmed(title) && '_' !in title
    ensures StripAttribution(title + TitleSuffix) == title
  {
    var s := title + TitleSuffix;
    AttributionAtTitleEnd(title);
    forall i: nat | i < |title|
      ensures !AttributionAt(s, i)
    {
      NoAttributionWithinTitle(title, i);
    }
    assert s[..|title|] == title;
    assert s[|s| - 1] == 'h';
  }

  /**
   `Lvl N <title> _ Breaking News English.docx` gives the slug of the title: the
   extension, the level prefix and the attribution suffix are all removed.
   */
  lemma ParseFilenameOfTitle(digits: string, ws: string, title: string)
    requires digits != [] && AllDigits(digits) && AllSpace(ws)
    requires title != [] && Trimmed(title) && '.' !in title && '_' !in title
    requires ws == [] ==> !IsDigit(title[0])
    ensures ParseFilename(LevelTag + digits + ws + title + TitleSuffix + Extension) == Slugify(title)
  {
    var rest := title + TitleSuffix;
    var a := LevelTag + digits + ws + rest;
    assert LevelTag + digits + ws + title + TitleSuffix + Extension == a + Extension;
    LevelPrefixDotFree(digits, ws);
    assert '.' !in TitleSuffix;
    assert '.' !in a;
    RemoveExtensionTrailing(a);
    RemoveExtensionNoDot(a);
    assert rest[0] == title[0];
    StripLevelPrefixSpec(digits, ws, rest);
    StripAttributionAfterTitle(title);
  }

  /** No `.` occurs in a level prefix, so `replace('.docx', '')` leaves it alone. */
  lemma LevelPrefixDotFree(digits: string, ws: string)
    requires AllDigits(digits) && AllSpace(ws)
    ensures '.' !in LevelTag + digits + ws
  {
    forall i | 0 <= i < |digits| ensures digits[i] != '.' {
      assert IsDigit(digits[i]);
    }
    forall i | 0 <= i < |ws| ensures ws[i] != '.' {
      assert IsSpace(ws[i]);
    }
  }

  /**
   After the extension is removed, the level prefix goes and leaves exactly what
   `replace('.docx', '')` makes of the rest of the name.
   */
  lemma LevelPrefixDropped(digits: string, ws: string, rest: string)
    requires digits != [] && AllDigits(digits) && AllSpace(ws)
    requires rest == [] || (!IsSpace(rest[0]) && !StartsWith(rest, Extension))
    requires ws == [] ==> rest == [] || !IsDigit(rest[0])
    ensures StripLevelPrefix(RemoveExtension(LevelTag + digits + ws + rest)) == RemoveExtension(rest)
  {
    LevelPrefixDotFree(digits, ws);
    RemoveExtensionDotFree(LevelTag + digits + ws, rest);
    if rest != [] {
      assert [rest[0]] + rest[1..] == rest;
      RemoveExtensionKeeps(rest[0], rest[1..]);
    }
    StripLevelPrefixSpec(digits, ws, RemoveExtension(rest));
  }

  /**
   The levels of one title share its slug, so they are grouped together: only the
   level prefix differs between their names, whatever follows it.
   */
  lemma SameTitleSameSlug(d1: string, w1: string, d2: string, w2: string, rest: string)
    requires d1 != [] && AllDigits(d1) && AllSpace(w1)
    requires d2 != [] && AllDigits(d2) && AllSpace(w2)
    requires rest == [] || (!IsSpace(rest[0]) && !StartsWith(rest, Extension))
    requires (w1 == [] || w2 == []) ==> rest == [] || !IsDigit(rest[0])
    ensures ParseFilename(LevelTag + d1 + w1 + rest) == ParseFilename(LevelTag + d2 + w2 + rest)
  {
    LevelPrefixDropped(d1, w1, rest);
    LevelPrefixDropped(d2, w2, rest);
  }

  // ---------------------------------------------------------------------------
  // Idempotence
  // ---------------------------------------------------------------------------

  lemma {:induction false} KeepSlugCharsIdentity(s: string)
    requires forall i :: 0 <= i < |s| ==> SlugSourceChar(s[i])
    ensures KeepSlugChars(s) == s
    decreases |s|
  {
    if s != [] {
      KeepSlugCharsIdentity(s[1..]);
      assert [s[0]] + s[1..] == s;
    }
  }

  lemma {:induction false} HyphenateIdentity(s: string)
    requires forall i :: 0 <= i < |s| ==> !IsSpace(s[i])
    ensures Hyphenate(s) == s
    decreases |s|
  {
    if s != [] {
      HyphenateIdentity(s[1..]);
      assert [s[0]] + s[1..] == s;
    }
  }

  /** A slug is a fixed point of slugify. */
  lemma SlugifyFixesSlugs(s: string)
    requires IsSlug(s)
    ensures Slugify(s) == s
  {
    KeepSlugCharsIdentity(s);
    assert Lower(s) == s;
    StripNoSpace(s);
    HyphenateIdentity(s);
  }

  /** slugify(slugify(x)) == slugify(x) */
  lemma SlugifyIdempotent(s: string)
    ensures Slugify(Slugify(s)) == Slugify(s)
  {
    SlugifyFixesSlugs(Slugify(s));
  }

  /** A slug is a fixed point of the whole filename normalisation. */
  lemma ParseFilenameFixesSlugs(s: string)
    requires IsSlug(s)
    ensures ParseFilename(s) == s
  {
    assert '.' !in s;
    RemoveExtensionNoDot(s);
    assert !HasLevelToken(s);
    assert forall i: nat :: !AttributionAt(s, i);
    SlugifyFixesSlugs(s);
  }

  /** parse_filename(parse_filename(f)) == parse_filename(f) */
  lemma ParseFilenameIdempotent(name: string)
    ensures ParseFilename(ParseFilename(name)) == ParseFilename(name)
  {
    ParseFilenameFixesSlugs(ParseFilename(name));
  }
}

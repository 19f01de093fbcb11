/** An optional value: the parser's "not found" results. */
module Options {

  datatype Option<+T> = None | Some(value: T)
}

/**
 The few Python `str` operations the article parser relies on, over strings of
 code points: `isspace`, `lower` (ASCII), `strip`, `find`, `split('\n')`,
 `'\n'.join`, and the decimal digits used by `int()` and `{n:03d}`.
 */
module Text {
  import opened Options

  /** Python's `str.isspace`; CPython's `re` uses the same set for `\s`. */
  predicate IsSpace(c: char) {
    || ('\t' <= c <= '\r')
    || ('\U{1C}' <= c <= '\U{1F}')
    || c == ' '
    || c == '\U{85}'
    || c == '\U{A0}'
    || c == '\U{1680}'
    || ('\U{2000}' <= c <= '\U{200A}')
    || c == '\U{2028}'
    || c == '\U{2029}'
    || c == '\U{202F}'
    || c == '\U{205F}'
    || c == '\U{3000}'
  }

  predicate IsDigit(c: char) { '0' <= c <= '9' }

  predicate IsUpper(c: char) { 'A' <= c <= 'Z' }

  predicate IsLowerLetter(c: char) { 'a' <= c <= 'z' }

  predicate AllSpace(s: string) {
    forall i :: 0 <= i < |s| ==> IsSpace(s[i])
  }

  predicate AllDigits(s: string) {
    forall i :: 0 <= i < |s| ==> IsDigit(s[i])
  }

  /** No whitespace at either end: what `strip()` leaves behind. */
  predicate Trimmed(s: string) {
    s == [] || (!IsSpace(s[0]) && !IsSpace(s[|s| - 1]))
  }

  // ---------------------------------------------------------------------------
  // Case folding (ASCII)
  // ---------------------------------------------------------------------------

  function LowerChar(c: char): char {
    if IsUpper(c) then (c as int - 'A' as int + 'a' as int) as char else c
  }

  function Lower(s: string): string {
    seq(|s|, i requires 0 <= i < |s| => LowerChar(s[i]))
  }

  lemma LowerAppend(a: string, b: string)
    ensures Lower(a + b) == Lower(a) + Lower(b)
  {
    assert forall i :: 0 <= i < |a + b| ==> Lower(a + b)[i] == (Lower(a) + Lower(b))[i];
  }

  lemma LowerSlice(s: string, i: nat, j: nat)
    requires i <= j <= |s|
    ensures Lower(s[i..j]) == Lower(s)[i..j]
  {
  }

  // ---------------------------------------------------------------------------
  // strip()
  // ---------------------------------------------------------------------------

  /** Length of the whitespace run that opens `s`. */
  function LeadingSpaces(s: string): (n: nat)
    ensures n <= |s|
    ensures AllSpace(s[..n])
    ensures n < |s| ==> !IsSpace(s[n])
  {
    if s != [] && IsSpace(s[0]) then 1 + LeadingSpaces(s[1..]) else 0
  }

  /** Index where the whitespace run that closes `s` begins. */
  function TrailingStart(s: string): (m: nat)
    ensures m <= |s|
    ensures AllSpace(s[m..])
    ensures 0 < m ==> !IsSpace(s[m - 1])
  {
    if s != [] && IsSpace(s[|s| - 1]) then TrailingStart(s[..|s| - 1]) else |s|
  }

  /** Python's `s.strip()`. */
  function Strip(s: string): (r: string)
    ensures Trimmed(r)
    ensures |r| <= |s|
    ensures r == [] <==> AllSpace(s)
    ensures forall c :: c in r ==> c in s
  {
    var t := s[LeadingSpaces(s)..];
    if t == [] then
      t
    else
      assert !IsSpace(t[0]);
      t[..TrailingStart(t)]
  }

  lemma {:induction false} LeadingSpacesExact(s: string, i: nat)
    requires i <= |s| && AllSpace(s[..i])
    requires i < |s| ==> !IsSpace(s[i])
    ensures LeadingSpaces(s) == i
    decreases i
  {
    if i > 0 {
      assert IsSpace(s[..i][0]);
      assert s[1..][..i - 1] == s[..i][1..];
      LeadingSpacesExact(s[1..], i - 1);
    }
  }

  lemma {:induction false} TrailingStartExact(s: string, j: nat)
    requires j <= |s| && AllSpace(s[j..])
    requires 0 < j ==> !IsSpace(s[j - 1])
    ensures TrailingStart(s) == j
    decreases |s| - j
  {
    if j < |s| {
      assert IsSpace(s[j..][|s| - 1 - j]);
      var u := s[..|s| - 1];
      assert u[j..] == s[j..][..|s| - 1 - j];
      TrailingStartExact(u, j);
    }
  }

  /**
   `strip()` is characterised by its result alone: the one infix of `s` with
   no whitespace at either end and only whitespace around it.
   */
  lemma StripUnique(s: string, i: nat, j: nat)
    requires i <= j <= |s|
    requires AllSpace(s[..i]) && AllSpace(s[j..])
    requires Trimmed(s[i..j])
    ensures Strip(s) == s[i..j]
  {
    if i == j {
      SpacesBefore(s, i);
      SpacesAfter(s, j);
      assert AllSpace(s);
    } else {
      assert s[i] == s[i..j][0];
      LeadingSpacesExact(s, i);
      var t := s[i..];
      assert t[j - i - 1] == s[i..j][j - i - 1];
      assert t[j - i..] == s[j..];
      TrailingStartExact(t, j - i);
      assert t != [] && t[..j - i] == s[i..j];
    }
  }

  /** `strip()` is idempotent. */
  lemma StripIdempotent(s: string)
    ensures Strip(Strip(s)) == Strip(s)
  {
    var r := Strip(s);
    StripUnique(r, 0, |r|);
  }

  /** The result of `strip()` is a slice of its argument with whitespace around it. */
  lemma StripIsSlice(s: string) returns (i: nat, j: nat)
    ensures i <= j <= |s|
    ensures Strip(s) == s[i..j]
    ensures AllSpace(s[..i]) && AllSpace(s[j..])
  {
    i := LeadingSpaces(s);
    var t := s[i..];
    if t == [] {
      j := i;
    } else {
      j := i + TrailingStart(t);
      assert s[j..] == t[TrailingStart(t)..];
    }
  }

  /** A slice inside a prefix of `s` is the same slice of the prefix. */
  lemma SliceOfPrefix(a: string, s: string, i: nat, k: nat)
    requires |a| <= |s| && s[..|a|] == a
    requires i <= k <= |a|
    ensures s[i..k] == a[i..k]
  {
    forall t | 0 <= t < k - i ensures s[i..k][t] == a[i..k][t] {
      assert a[i + t] == s[..|a|][i + t];
    }
  }

  /**
   A trimmed piece that opens the stripped form of `a` also opens the
   stripped form of any string that starts with `a`.
   */
  lemma StripPrefixTransfer(a: string, s: string, pre: string)
    requires |a| <= |s| && s[..|a|] == a
    requires pre != [] && Trimmed(pre)
    requires |pre| <= |Strip(a)| && Strip(a)[..|pre|] == pre
    ensures |pre| <= |Strip(s)| && Strip(s)[..|pre|] == pre
  {
    var i, j := StripIsSlice(a);
    SliceOfPrefix(a, s, 0, i);
    assert s[..i] == s[0..i] && a[..i] == a[0..i];
    SliceOfPrefix(a, s, i, i + |pre|);
    assert a[i..j][..|pre|] == a[i..i + |pre|];
    StripKeepsPrefix(pre, s, i);
  }

  /** A string with no whitespace in it is left alone by `strip()`. */
  lemma StripNoSpace(s: string)
    requires forall k :: 0 <= k < |s| ==> !IsSpace(s[k])
    ensures Strip(s) == s
  {
    StripUnique(s, 0, |s|);
  }

  /**
   A non-empty piece with no whitespace at either end, preceded only by
   whitespace, opens the result of `strip()`.
   */
  lemma StripKeepsPrefix(p: string, s: string, i: nat)
    requires p != [] && Trimmed(p)
    requires i + |p| <= |s| && s[i..i + |p|] == p
    requires AllSpace(s[..i])
    ensures |p| <= |Strip(s)| && Strip(s)[..|p|] == p
  {
    var a, b := StripIsSlice(s);
    SpacesBefore(s, a);
    SpacesBefore(s, i);
    SpacesAfter(s, b);
    assert s[i] == p[0];
    assert s[i + |p| - 1] == p[|p| - 1];
    assert i + |p| <= b;
    assert Strip(s)[0] == s[a];
    assert a == i;
    assert Strip(s)[..|p|] == s[i..i + |p|];
  }

  /** Every character of an all-whitespace prefix is whitespace. */
  lemma SpacesBefore(s: string, n: nat)
    requires n <= |s| && AllSpace(s[..n])
    ensures forall k :: 0 <= k < n ==> IsSpace(s[k])
  {
    forall k | 0 <= k < n
      ensures IsSpace(s[k])
    {
      assert s[..n][k] == s[k];
    }
  }

  /** Every character of an all-whitespace suffix is whitespace. */
  lemma SpacesAfter(s: string, n: nat)
    requires n <= |s| && AllSpace(s[n..])
    ensures forall k :: n <= k < |s| ==> IsSpace(s[k])
  {
    forall k | n <= k < |s|
      ensures IsSpace(s[k])
    {
      assert s[n..][k - n] == s[k];
    }
  }

  /** Lower-casing a character never turns whitespace into non-whitespace or back. */
  lemma LowerCharSpace(c: char)
    ensures IsSpace(LowerChar(c)) == IsSpace(c)
  {
  }

  /** Two strings equal up to ASCII case are trimmed together. */
  lemma LowerKeepsTrimmed(p: string, m: string)
    requires Lower(p) == Lower(m) && Trimmed(m)
    ensures |p| == |m| && Trimmed(p)
  {
    if p != [] {
      assert Lower(p)[0] == LowerChar(p[0]) && Lower(m)[0] == LowerChar(m[0]);
      LowerCharSpace(p[0]);
      LowerCharSpace(m[0]);
      assert Lower(p)[|p| - 1] == LowerChar(p[|p| - 1]) && Lower(m)[|p| - 1] == LowerChar(m[|p| - 1]);
      LowerCharSpace(p[|p| - 1]);
      LowerCharSpace(m[|p| - 1]);
    }
  }

  /** A string holding a case-insensitive occurrence of a pattern that opens with non-whitespace is not blank. */
  lemma CIOccursNotBlank(s: string, pat: string)
    requires CIOccurs(s, pat)
    requires pat != [] && !IsSpace(pat[0])
    ensures !AllSpace(s)
  {
    var p: nat :| p <= |Lower(s)| && OccursAt(Lower(s), Lower(pat), p);
    assert Lower(s)[p] == Lower(pat)[0];
    LowerCharSpace(s[p]);
    LowerCharSpace(pat[0]);
  }

  // ---------------------------------------------------------------------------
  // find() and `in`
  // ---------------------------------------------------------------------------

  predicate OccursAt(s: string, pat: string, i: nat) {
    i + |pat| <= |s| && s[i..i + |pat|] == pat
  }

  /** `pat in s` */
  predicate Occurs(s: string, pat: string) {
    exists i: nat :: i <= |s| && OccursAt(s, pat, i)
  }

  /** `i` is where `s.find(pat)` stops: the leftmost occurrence. */
  predicate FirstOccurrence(s: string, pat: string, i: nat) {
    OccursAt(s, pat, i) && forall k: nat :: k < i ==> !OccursAt(s, pat, k)
  }

  function FindFrom(s: string, pat: string, i: nat): (r: int)
    requires i <= |s|
    ensures -1 <= r
    ensures r == -1 ==> forall k: nat :: i <= k ==> !OccursAt(s, pat, k)
    ensures r >= 0 ==> i <= r && OccursAt(s, pat, r)
    ensures r >= 0 ==> forall k: nat :: i <= k < r ==> !OccursAt(s, pat, k)
    decreases |s| - i
  {
    if OccursAt(s, pat, i) then i
    else if i == |s| then -1
    else FindFrom(s, pat, i + 1)
  }

  /** Python's `s.find(pat)`: the leftmost occurrence, or -1. */
  function Find(s: string, pat: string): (r: int)
    ensures -1 <= r
    ensures r == -1 <==> !Occurs(s, pat)
    ensures r >= 0 ==> FirstOccurrence(s, pat, r)
    ensures r >= 0 ==> r + |pat| <= |s|
  {
    FindFrom(s, pat, 0)
  }

  /** `pat.lower() in s.lower()` */
  predicate CIOccurs(s: string, pat: string) {
    Occurs(Lower(s), Lower(pat))
  }

  /** Python's `s.lower().find(pat.lower())`. */
  function CIFind(s: string, pat: string): (r: int)
    ensures -1 <= r
    ensures r == -1 <==> !CIOccurs(s, pat)
    ensures r >= 0 ==> FirstOccurrence(Lower(s), Lower(pat), r)
    ensures r >= 0 ==> r + |pat| <= |s|
  {
    Find(Lower(s), Lower(pat))
  }

  predicate StartsWith(s: string, p: string) {
    |p| <= |s| && s[..|p|] == p
  }

  predicate EndsWith(s: string, p: string) {
    |p| <= |s| && s[|s| - |p|..] == p
  }

  // ---------------------------------------------------------------------------
  // split('\n') and '\n'.join
  // ---------------------------------------------------------------------------

  /** Python's `s.split('\n')`: never empty, and no piece holds a newline. */
  function Lines(s: string): (r: seq<string>)
    ensures |r| >= 1
    ensures forall i :: 0 <= i < |r| ==> '\n' !in r[i]
  {
    if s == [] then [[]]
    else if s[0] == '\n' then [[]] + Lines(s[1..])
    else
      var rest := Lines(s[1..]);
      [[s[0]] + rest[0]] + rest[1..]
  }

  /** Python's `'\n'.join(ls)`: it opens with the first line. */
  function Join(ls: seq<string>): (r: string)
    ensures |ls| >= 1 ==> |ls[0]| <= |r| && r[..|ls[0]|] == ls[0]
  {
    if |ls| == 0 then []
    else if |ls| == 1 then ls[0]
    else ls[0] + "\n" + Join(ls[1..])
  }

  /** Joining the pieces of a split gives the string back. */
  lemma {:induction false} JoinLines(s: string)
    ensures Join(Lines(s)) == s
  {
    if s == [] {
    } else if s[0] == '\n' {
      JoinLines(s[1..]);
      assert s == "\n" + s[1..];
    } else {
      var rest := Lines(s[1..]);
      JoinLines(s[1..]);
      if |rest| == 1 {
        assert s == [s[0]] + rest[0];
      } else {
        assert Join(rest) == rest[0] + "\n" + Join(rest[1..]);
        var r := Lines(s);
        assert r[1..] == rest[1..];
        assert s == [s[0]] + s[1..];
      }
    }
  }

  /** A newline-free line followed by a newline splits off as the first piece. */
  lemma {:induction false} LinesCons(a: string, t: string)
    requires '\n' !in a
    ensures Lines(a + "\n" + t) == [a] + Lines(t)
    decreases |a|
  {
    if a == [] {
      assert a + "\n" + t == "\n" + t;
      assert ("\n" + t)[1..] == t;
    } else {
      var s := a + "\n" + t;
      assert s[0] == a[0];
      assert s[1..] == a[1..] + "\n" + t;
      LinesCons(a[1..], t);
      assert [s[0]] + a[1..] == a;
    }
  }

  /** A newline-free string is a single piece. */
  lemma {:induction false} LinesSingle(a: string)
    requires '\n' !in a
    ensures Lines(a) == [a]
    decreases |a|
  {
    if a != [] {
      assert a[0] in a;
      assert forall c :: c in a[1..] ==> c in a;
      LinesSingle(a[1..]);
      assert [a[0]] + a[1..] == a;
    }
  }

  /** Splitting a join of newline-free lines gives the lines back. */
  lemma {:induction false} LinesJoin(ls: seq<string>)
    requires |ls| >= 1
    requires forall i :: 0 <= i < |ls| ==> '\n' !in ls[i]
    ensures Lines(Join(ls)) == ls
    decreases |ls|
  {
    if |ls| == 1 {
      LinesSingle(ls[0]);
    } else {
      LinesJoin(ls[1..]);
      LinesCons(ls[0], Join(ls[1..]));
      assert [ls[0]] + ls[1..] == ls;
    }
  }

  /** The first piece is the prefix of `s` up to the first newline. */
  lemma {:induction false} FirstLinePrefix(s: string)
    ensures |Lines(s)[0]| <= |s|
    ensures s[..|Lines(s)[0]|] == Lines(s)[0]
    ensures |Lines(s)[0]| < |s| ==> s[|Lines(s)[0]|] == '\n'
    decreases |s|
  {
    if s != [] && s[0] != '\n' {
      FirstLinePrefix(s[1..]);
    }
  }

  /** An occurrence of a newline-free pattern lies inside one piece of the split. */
  lemma {:induction false} OccurrenceInLine(s: string, pat: string, p: nat)
    requires OccursAt(s, pat, p)
    requires '\n' !in pat
    ensures exists i :: 0 <= i < |Lines(s)| && Occurs(Lines(s)[i], pat)
    decreases |s|
  {
    if p == 0 {
      OccurrenceAtLineStart(s, pat);
    } else {
      var t := s[1..];
      assert t[p - 1..p - 1 + |pat|] == pat;
      OccurrenceInLine(t, pat, p - 1);
      var i :| 0 <= i < |Lines(t)| && Occurs(Lines(t)[i], pat);
      if s[0] == '\n' {
        assert Lines(s)[i + 1] == Lines(t)[i];
      } else {
        OccurrenceInConsLine(s, pat, i);
      }
    }
  }

  /** An occurrence at the very start lies in the first piece. */
  lemma OccurrenceAtLineStart(s: string, pat: string)
    requires OccursAt(s, pat, 0)
    requires '\n' !in pat
    ensures OccursAt(Lines(s)[0], pat, 0)
  {
    FirstLinePrefix(s);
    var f := Lines(s)[0];
    assert forall k :: 0 <= k < |pat| ==> s[k] == pat[k];
    assert |pat| <= |f|;
    assert f[..|pat|] == s[..|pat|];
  }

  /** Putting a non-newline character in front keeps every piece's occurrences. */
  lemma OccurrenceInConsLine(s: string, pat: string, i: int)
    requires s != [] && s[0] != '\n'
    requires 0 <= i < |Lines(s[1..])| && Occurs(Lines(s[1..])[i], pat)
    ensures exists k :: 0 <= k < |Lines(s)| && Occurs(Lines(s)[k], pat)
  {
    var rest := Lines(s[1..]);
    var L := Lines(s);
    assert L == [[s[0]] + rest[0]] + rest[1..];
    if i == 0 {
      var q: nat :| q <= |rest[0]| && OccursAt(rest[0], pat, q);
      OccursAtCons(s[0], rest[0], pat, q);
      assert Occurs(L[0], pat);
    } else {
      assert L[i] == rest[i];
    }
  }

  /** An occurrence survives putting a character in front, one place further on. */
  lemma OccursAtCons(c: char, line: string, pat: string, q: nat)
    requires OccursAt(line, pat, q)
    ensures OccursAt([c] + line, pat, q + 1)
  {
    assert ([c] + line)[q + 1..q + 1 + |pat|] == line[q..q + |pat|];
  }

  /** Splitting `s` and lowering each piece gives the split of the lowered `s`. */
  ghost predicate LowerSplit(s: string) {
    && |Lines(Lower(s))| == |Lines(s)|
    && forall i :: 0 <= i < |Lines(s)| ==> Lines(Lower(s))[i] == Lower(Lines(s)[i])
  }

  /** Splitting commutes with ASCII lowering. */
  lemma {:induction false} LinesLower(s: string)
    ensures LowerSplit(s)
    decreases |s|
  {
    if s != [] {
      var t := s[1..];
      var ls := Lower(s);
      assert ls[1..] == Lower(t);
      assert ls[0] == LowerChar(s[0]);
      LinesLower(t);
      if s[0] == '\n' {
        assert ls[0] == '\n';
        assert Lines(ls) == [[]] + Lines(Lower(t));
        assert Lines(s) == [[]] + Lines(t);
      } else {
        LinesLowerCons(s);
      }
    }
  }

  /** The step of `LinesLower` for a string that does not open with a newline. */
  lemma LinesLowerCons(s: string)
    requires s != [] && s[0] != '\n' && LowerSplit(s[1..])
    ensures LowerSplit(s)
  {
    var t := s[1..];
    var ls := Lower(s);
    assert ls[1..] == Lower(t);
    assert ls[0] == LowerChar(s[0]) && ls[0] != '\n';
    var rest := Lines(t);
    var lrest := Lines(Lower(t));
    LinesOpen(ls);
    LinesOpen(s);
    LowerAppend([s[0]], rest[0]);
    assert Lower([s[0]]) == [ls[0]];
    forall i | 0 <= i < |Lines(s)|
      ensures Lines(ls)[i] == Lower(Lines(s)[i])
    {
      if i > 0 {
        assert Lines(ls)[i] == lrest[i];
      }
    }
  }

  /** A string that does not open with a newline adds its first character to the first piece. */
  lemma LinesOpen(s: string)
    requires s != [] && s[0] != '\n'
    ensures |Lines(s)| == |Lines(s[1..])|
    ensures Lines(s)[0] == [s[0]] + Lines(s[1..])[0]
    ensures forall i :: 0 < i < |Lines(s)| ==> Lines(s)[i] == Lines(s[1..])[i]
  {
  }

  /** Lowering neither adds nor removes newlines. */
  lemma NewlineLower(s: string)
    ensures ('\n' in Lower(s)) == ('\n' in s)
  {
    if '\n' in s {
      var k :| 0 <= k < |s| && s[k] == '\n';
      assert Lower(s)[k] == '\n';
    }
  }

  /**
   A case-insensitive occurrence of a newline-free pattern in `s` is a
   case-insensitive occurrence in one of the lines of `s`.
   */
  lemma CIOccurrenceInLine(s: string, pat: string)
    requires CIOccurs(s, pat)
    requires '\n' !in pat
    ensures exists i :: 0 <= i < |Lines(s)| && CIOccurs(Lines(s)[i], pat)
  {
    var p: nat :| OccursAt(Lower(s), Lower(pat), p);
    NewlineLower(pat);
    OccurrenceInLine(Lower(s), Lower(pat), p);
    LinesLower(s);
    var i :| 0 <= i < |Lines(Lower(s))| && Occurs(Lines(Lower(s))[i], Lower(pat));
    assert CIOccurs(Lines(s)[i], pat);
  }

  // ---------------------------------------------------------------------------
  // First satisfying index (the `for … break` scans)
  // ---------------------------------------------------------------------------

  /** The first index, from `i` on, whose element satisfies `p`. */
  function FirstWhere<T>(xs: seq<T>, p: T -> bool, i: nat): (r: Option<nat>)
    requires i <= |xs|
    ensures r.None? ==> forall k :: i <= k < |xs| ==> !p(xs[k])
    ensures r.Some? ==> i <= r.value < |xs| && p(xs[r.value])
    ensures r.Some? ==> forall k :: i <= k < r.value ==> !p(xs[k])
    decreases |xs| - i
  {
    if i == |xs| then None
    else if p(xs[i]) then Some(i)
    else FirstWhere(xs, p, i + 1)
  }

  /** `q` is the first index of `xs` whose element satisfies `p`. */
  ghost predicate FirstSatisfying<T>(xs: seq<T>, p: T -> bool, q: int) {
    && 0 <= q < |xs|
    && p(xs[q])
    && forall k :: 0 <= k < q ==> !p(xs[k])
  }

  /** The scan stops at the first satisfying index and nowhere else. */
  lemma FirstWhereFinds<T>(xs: seq<T>, p: T -> bool, q: int)
    requires FirstSatisfying(xs, p, q)
    ensures FirstWhere(xs, p, 0) == Some(q)
  {
    var r := FirstWhere(xs, p, 0);
    assert r.Some?;
  }

  // ---------------------------------------------------------------------------
  // Decimal digits
  // ---------------------------------------------------------------------------

  /** Length of the run of ASCII digits that opens `s` (`\d+`, greedy). */
  function DigitRun(s: string): (n: nat)
    ensures n <= |s|
    ensures AllDigits(s[..n])
    ensures n < |s| ==> !IsDigit(s[n])
  {
    if s != [] && IsDigit(s[0]) then 1 + DigitRun(s[1..]) else 0
  }

  lemma DigitRunExact(s: string, n: nat)
    requires n <= |s| && AllDigits(s[..n])
    requires n < |s| ==> !IsDigit(s[n])
    ensures DigitRun(s) == n
  {
    var m := DigitRun(s);
    DigitsOfPrefix(s, n);
    DigitsOfPrefix(s, m);
  }

  /** The digits of a prefix are digits of the whole. */
  lemma DigitsOfPrefix(s: string, n: nat)
    requires n <= |s| && AllDigits(s[..n])
    ensures forall k :: 0 <= k < n ==> IsDigit(s[k])
  {
    forall k | 0 <= k < n
      ensures IsDigit(s[k])
    {
      assert s[..n][k] == s[k];
    }
  }

  function DigitValue(c: char): nat
    requires IsDigit(c)
  {
    c as int - '0' as int
  }

  /** Python's `int(s)` on a string of ASCII digits. */
  function DigitsValue(s: string): nat
    requires AllDigits(s)
  {
    if s == [] then 0 else 10 * DigitsValue(s[..|s| - 1]) + DigitValue(s[|s| - 1])
  }

  function DigitChar(d: nat): (c: char)
    requires d < 10
    ensures IsDigit(c) && DigitValue(c) == d
  {
    ('0' as int + d) as char
  }

  /** Python's `str(n)` for a natural number. */
  function Decimal(n: nat): (r: string)
    ensures r != [] && AllDigits(r)
    ensures DigitsValue(r) == n
    ensures n > 0 ==> r[0] != '0'
    ensures n == 0 ==> r == "0"
  {
    if n < 10 then [DigitChar(n)]
    else
      var r := Decimal(n / 10) + [DigitChar(n % 10)];
      assert r[..|r| - 1] == Decimal(n / 10);
      r
  }

  /** Leading zeros do not change the value. */
  lemma {:induction false} ZerosValue(z: nat, s: string)
    requires AllDigits(s)
    ensures AllDigits(Zeros(z) + s)
    ensures DigitsValue(Zeros(z) + s) == DigitsValue(s)
    decreases |s|
  {
    var u := Zeros(z) + s;
    if s == [] {
      assert u == Zeros(z);
      ZerosOnly(z);
    } else {
      assert u[..|u| - 1] == Zeros(z) + s[..|s| - 1];
      ZerosValue(z, s[..|s| - 1]);
    }
  }

  lemma {:induction false} ZerosOnly(z: nat)
    ensures AllDigits(Zeros(z)) && DigitsValue(Zeros(z)) == 0
    decreases z
  {
    if z > 0 {
      assert Zeros(z)[..z - 1] == Zeros(z - 1);
      ZerosOnly(z - 1);
    }
  }

  function Zeros(z: nat): (r: string)
    ensures |r| == z
    ensures forall i :: 0 <= i < z ==> r[i] == '0'
  {
    seq(z, i => '0')
  }

  /** Python's `f'{n:0{w}d}'`: the decimal form of `n`, left-padded with zeros to width `w`. */
  function ZeroPad(n: nat, w: nat): (r: string)
    ensures AllDigits(r)
    ensures DigitsValue(r) == n
    ensures |r| == if |Decimal(n)| < w then w else |Decimal(n)|
  {
    var d := Decimal(n);
    if |d| < w then
      ZerosValue(w - |d|, d);
      Zeros(w - |d|) + d
    else
      d
  }
}

/**
 Content segmentation: how one document's extracted text is cut into article
 text, instruction, questions and (for level 6) writing prompt, plus the
 numbered-question splitter `parse_article_content`.

 Every marker list is tried in list order and the first marker that occurs
 anywhere wins, whatever its position in the text compared with the others.
 */
module Segment {
  import opened Options
  import opened Text

  const HomeworkMarker := "Homework:"

  const WritingMarkers: seq<string> :=
    ["Free Writing", "Academic Writing", "Writing Practice", "writing practice"]

  const InstructionMarkers: seq<string> :=
    ["Write a full sentence", "Write a full-sentence", "Answer each question",
     "Write full sentences", "In your Vocab Notebook"]

  /** The four strings `parse_level_content` returns. */
  datatype Sections = Sections(articleText: string, instruction: string, questions: string, writingPrompt: string)

  /** The pair `extract_instruction_and_questions` returns. */
  datatype Homework = Homework(instruction: string, questions: string)

  /** The three strings `parse_article_content` returns. */
  datatype ArticleParts = ArticleParts(headline: string, body: string, questions: string)

  /** Marker `j` is the first of `markers`, in list order, that occurs case-insensitively in `text`. */
  predicate FirstPresent(text: string, markers: seq<string>, j: int) {
    && 0 <= j < |markers|
    && CIOccurs(text, markers[j])
    && forall k :: 0 <= k < j ==> !CIOccurs(text, markers[k])
  }

  predicate NonePresent(text: string, markers: seq<string>) {
    forall j :: 0 <= j < |markers| ==> !CIOccurs(text, markers[j])
  }

  /** `s` begins with `prefix`, ignoring ASCII case. */
  predicate CIStartsWith(s: string, prefix: string) {
    |prefix| <= |s| && Lower(s[..|prefix|]) == Lower(prefix)
  }

  // ---------------------------------------------------------------------------
  // extract_instruction_and_questions
  // ---------------------------------------------------------------------------

  /** The line test of the inner loop: the line contains `marker`, ignoring case. */
  function HoldsMarker(marker: string): string -> bool {
    line => CIOccurs(line, marker)
  }

  /** The first line that contains `marker` case-insensitively. */
  function FirstLineWith(lines: seq<string>, marker: string): (r: Option<nat>)
    ensures r.None? ==> forall k :: 0 <= k < |lines| ==> !CIOccurs(lines[k], marker)
    ensures r.Some? ==> r.value < |lines| && CIOccurs(lines[r.value], marker)
    ensures r.Some? ==> forall k :: 0 <= k < r.value ==> !CIOccurs(lines[k], marker)
  {
    FirstWhere(lines, HoldsMarker(marker), 0)
  }

  /** Line `i` holds `marker`, and `h` is that line and the lines after it, each stripped. */
  predicate HitAt(lines: seq<string>, marker: string, i: int, h: Homework) {
    && 0 <= i < |lines|
    && CIOccurs(lines[i], marker)
    && h == Homework(Strip(lines[i]), Strip(Join(lines[i + 1..])))
  }

  /** One pass of the marker loop: the instruction line and what follows it, if `marker` is found. */
  function MarkerHit(content: string, marker: string): (r: Option<Homework>)
    ensures !CIOccurs(content, marker) ==> r.None?
    ensures r.Some? ==> exists i :: HitAt(Lines(content), marker, i, r.value)
  {
    if CIFind(content, marker) != -1 then
      var lines := Lines(content);
      match FirstLineWith(lines, marker)
      case Some(i) =>
        var h := Homework(Strip(lines[i]), Strip(Join(lines[i + 1..])));
        assert HitAt(lines, marker, i, h);
        Some(h)
      case None => None
    else
      None
  }

  /** The marker test of the outer loop: `marker` yields an instruction line. */
  function Hits(content: string): string -> bool {
    marker => MarkerHit(content, marker).Some?
  }

  /**
   The marker loop of `extract_instruction_and_questions`: the first marker that
   yields an instruction line decides; when none does, the whole content is
   handed back as the questions.
   */
  function ExtractWith(content: string, markers: seq<string>): (h: Homework)
    ensures NonePresent(content, markers) ==> h == Homework("", content)
    ensures h == Homework("", content) || exists j :: 0 <= j < |markers| && MarkerHit(content, markers[j]) == Some(h)
  {
    match FirstWhere(markers, Hits(content), 0)
    case Some(j) => MarkerHit(content, markers[j]).value
    case None => Homework("", content)
  }

  /** A newline-free marker that occurs lies within one of the lines. */
  lemma MarkerLineExists(content: string, marker: string)
    requires CIOccurs(content, marker) && '\n' !in marker
    ensures FirstLineWith(Lines(content), marker).Some?
  {
    CIOccurrenceInLine(content, marker);
    var lines := Lines(content);
    var i :| 0 <= i < |lines| && CIOccurs(lines[i], marker);
    assert HoldsMarker(marker)(lines[i]);
  }

  /** A marker that occurs and is held by some line picks the first such line. */
  lemma MarkerFound(content: string, marker: string)
    requires CIOccurs(content, marker) && FirstLineWith(Lines(content), marker).Some?
    ensures
      var lines := Lines(content);
      var i := FirstLineWith(lines, marker).value;
      MarkerHit(content, marker) == Some(Homework(Strip(lines[i]), Strip(Join(lines[i + 1..]))))
  {
    assert CIFind(content, marker) != -1;
  }

  /** The first present marker picks the first line holding it, and that line is not blank. */
  lemma ExtractWithFirstPresent(content: string, markers: seq<string>, j: int)
    requires SingleLineMarkers(markers) && FirstPresent(content, markers, j)
    ensures FirstLineWith(Lines(content), markers[j]).Some?
    ensures
      var lines := Lines(content);
      var i := FirstLineWith(lines, markers[j]).value;
      && ExtractWith(content, markers) == Homework(Strip(lines[i]), Strip(Join(lines[i + 1..])))
      && Strip(lines[i]) != ""
  {
    var marker := markers[j];
    assert forall k :: 0 <= k < j ==> !Hits(content)(markers[k]);
    MarkerLineExists(content, marker);
    MarkerFound(content, marker);
    FirstWhereFinds(markers, Hits(content), j);
    var lines := Lines(content);
    var i := FirstLineWith(lines, marker).value;
    CIOccursNotBlank(lines[i], marker);
  }

  /**
   What the marker loop promises: with no marker present, `h` is `("", content)`;
   otherwise the first listed marker present picks the first line containing it,
   `h` is that line and the lines after it, each stripped, and the instruction
   is not blank.
   */
  ghost predicate ExtractedBy(content: string, markers: seq<string>, h: Homework) {
    && (NonePresent(content, markers) ==> h == Homework("", content))
    && forall j {:trigger markers[j]} :: FirstPresent(content, markers, j) ==>
         && FirstLineWith(Lines(content), markers[j]).Some?
         && var lines := Lines(content);
         && var i := FirstLineWith(lines, markers[j]).value;
         && h == Homework(Strip(lines[i]), Strip(Join(lines[i + 1..])))
         && h.instruction != ""
  }

  /** Python's `extract_instruction_and_questions`. */
  function ExtractInstructionAndQuestions(content: string): (h: Homework)
    ensures ExtractedBy(content, InstructionMarkers, h)
  {
    InstructionMarkersSingleLine();
    ExtractWithSpec(content, InstructionMarkers);
    ExtractWith(content, InstructionMarkers)
  }

  /** Every marker is non-empty, opens with a non-space and stays on one line. */
  predicate SingleLineMarkers(markers: seq<string>) {
    forall k :: 0 <= k < |markers| ==>
      markers[k] != [] && !IsSpace(markers[k][0]) && '\n' !in markers[k]
  }

  lemma InstructionMarkersSingleLine()
    ensures SingleLineMarkers(InstructionMarkers)
  {
    forall k | 0 <= k < |InstructionMarkers|
      ensures InstructionMarkers[k] != [] && !IsSpace(InstructionMarkers[k][0])
      ensures '\n' !in InstructionMarkers[k]
    {
      if k == 0 {
        assert InstructionMarkers[k] == "Write a full sentence";
      } else if k == 1 {
        assert InstructionMarkers[k] == "Write a full-sentence";
      } else if k == 2 {
        assert InstructionMarkers[k] == "Answer each question";
      } else if k == 3 {
        assert InstructionMarkers[k] == "Write full sentences";
      } else {
        assert InstructionMarkers[k] == "In your Vocab Notebook";
      }
    }
  }

  /** Both outcomes of the marker loop, for any list of single-line markers. */
  lemma ExtractWithSpec(content: string, markers: seq<string>)
    requires SingleLineMarkers(markers)
    ensures ExtractedBy(content, markers, ExtractWith(content, markers))
  {
    forall j | FirstPresent(content, markers, j)
      ensures FirstLineWith(Lines(content), markers[j]).Some?
      ensures
        var lines := Lines(content);
        var i := FirstLineWith(lines, markers[j]).value;
        && ExtractWith(content, markers) == Homework(Strip(lines[i]), Strip(Join(lines[i + 1..])))
        && Strip(lines[i]) != ""
    {
      ExtractWithFirstPresent(content, markers, j);
    }
  }

  /** When some marker occurs, exactly one is the first present. */
  lemma FirstPresentUnique(text: string, markers: seq<string>, j: int)
    requires FirstPresent(text, markers, j)
    ensures forall k :: FirstPresent(text, markers, k) ==> k == j
  {
  }

  // ---------------------------------------------------------------------------
  // parse_level_6_content / parse_level_1_and_3_content
  // ---------------------------------------------------------------------------

  /** The first marker, from index `j` on, that occurs case-insensitively in `text`. */
  function SelectMarker(text: string, markers: seq<string>, j: nat): (r: Option<nat>)
    requires j <= |markers|
    ensures r.None? ==> forall k :: j <= k < |markers| ==> !CIOccurs(text, markers[k])
    ensures r.Some? ==> j <= r.value < |markers| && CIOccurs(text, markers[r.value])
    ensures r.Some? ==> forall k :: j <= k < r.value ==> !CIOccurs(text, markers[k])
    decreases |markers| - j
  {
    if j == |markers| then None
    else if CIFind(text, markers[j]) != -1 then Some(j)
    else SelectMarker(text, markers, j + 1)
  }

  /** Python's `parse_level_6_content`. */
  function ParseLevel6Content(articleText: string, afterHomework: string): (r: Sections)
    ensures r.articleText == articleText
    ensures NonePresent(afterHomework, WritingMarkers) ==>
              && r.writingPrompt == ""
              && Homework(r.instruction, r.questions) == ExtractInstructionAndQuestions(afterHomework)
    ensures forall j {:trigger WritingMarkers[j]} :: FirstPresent(afterHomework, WritingMarkers, j) ==>
              && var idx := CIFind(afterHomework, WritingMarkers[j]);
              && 0 <= idx <= |afterHomework|
              && r.writingPrompt == Strip(afterHomework[idx..])
              && Homework(r.instruction, r.questions) == ExtractInstructionAndQuestions(Strip(afterHomework[..idx]))
  {
    match SelectMarker(afterHomework, WritingMarkers, 0)
    case None =>
      var h := ExtractInstructionAndQuestions(afterHomework);
      Sections(articleText, h.instruction, h.questions, "")
    case Some(j) =>
      var idx := CIFind(afterHomework, WritingMarkers[j]);
      var h := ExtractInstructionAndQuestions(Strip(afterHomework[..idx]));
      FirstPresentUnique(afterHomework, WritingMarkers, j);
      Sections(articleText, h.instruction, h.questions, Strip(afterHomework[idx..]))
  }

  /** Python's `parse_level_1_and_3_content`, used for every level but 6. */
  function ParseLevel1And3Content(articleText: string, afterHomework: string): (r: Sections)
    ensures r.articleText == articleText
    ensures r.writingPrompt == ""
    ensures Homework(r.instruction, r.questions) == ExtractInstructionAndQuestions(afterHomework)
  {
    var h := ExtractInstructionAndQuestions(afterHomework);
    Sections(articleText, h.instruction, h.questions, "")
  }

  /** The selected writing marker opens the writing prompt, ignoring case. */
  lemma WritingPromptStartsWithMarker(articleText: string, afterHomework: string, j: int)
    requires FirstPresent(afterHomework, WritingMarkers, j)
    ensures CIStartsWith(ParseLevel6Content(articleText, afterHomework).writingPrompt, WritingMarkers[j])
  {
    var m := WritingMarkers[j];
    WritingMarkerTrimmed(j);
    StripFromMarker(afterHomework, m);
  }

  /** Stripping from where a trimmed marker is found leaves a text that opens with it. */
  lemma StripFromMarker(s: string, m: string)
    requires CIOccurs(s, m) && m != [] && Trimmed(m)
    ensures CIStartsWith(Strip(s[CIFind(s, m)..]), m)
  {
    var idx := CIFind(s, m);
    var tail := s[idx..];
    var p := s[idx..idx + |m|];
    LowerSlice(s, idx, idx + |m|);
    assert Lower(p) == Lower(m);
    LowerKeepsTrimmed(p, m);
    assert tail[0..|m|] == p;
    StripKeepsPrefix(p, tail, 0);
  }

  lemma WritingMarkerTrimmed(j: int)
    requires 0 <= j < |WritingMarkers|
    ensures WritingMarkers[j] != [] && Trimmed(WritingMarkers[j])
  {
    if j == 0 {
      assert WritingMarkers[j] == "Free Writing";
    } else if j == 1 {
      assert WritingMarkers[j] == "Academic Writing";
    } else if j == 2 {
      assert WritingMarkers[j] == "Writing Practice";
    } else {
      assert WritingMarkers[j] == "writing practice";
    }
  }

  /**
   Priority beats position: when a lower-priority marker occurs before the
   first marker present, the prompt still starts at the first marker present.
   */
  lemma WritingPriorityOverPosition(articleText: string, afterHomework: string, j: int, k: int)
    requires FirstPresent(afterHomework, WritingMarkers, j)
    requires j < k < |WritingMarkers| && CIOccurs(afterHomework, WritingMarkers[k])
    requires CIFind(afterHomework, WritingMarkers[k]) < CIFind(afterHomework, WritingMarkers[j])
    ensures
      var r := ParseLevel6Content(articleText, afterHomework);
      var idx := CIFind(afterHomework, WritingMarkers[j]);
      && r.writingPrompt == Strip(afterHomework[idx..])
      && CIStartsWith(r.writingPrompt, WritingMarkers[j])
  {
    WritingPromptStartsWithMarker(articleText, afterHomework, j);
  }

  // ---------------------------------------------------------------------------
  // parse_level_content
  // ---------------------------------------------------------------------------

  /** The homework block: the trimmed text after the first `Homework:`. */
  function AfterHomework(fullText: string, h: nat): string
    requires h + |HomeworkMarker| <= |fullText|
  {
    Strip(fullText[h + |HomeworkMarker|..])
  }

  /** Python's `parse_level_content`. */
  function ParseLevelContent(fullText: string, level: int): (r: Sections)
    ensures fullText == [] ==> r == Sections("", "", "", "")
    ensures !Occurs(fullText, HomeworkMarker) ==> r == Sections(Strip(fullText), "", "", "")
    ensures level != 6 ==> r.writingPrompt == ""
    ensures forall h: nat {:trigger FirstOccurrence(fullText, HomeworkMarker, h)} ::
              FirstOccurrence(fullText, HomeworkMarker, h) ==>
                && r.articleText == Strip(fullText[..h])
                && (level == 6 ==> r == ParseLevel6Content(Strip(fullText[..h]), AfterHomework(fullText, h)))
                && (level != 6 ==> Homework(r.instruction, r.questions)
                                     == ExtractInstructionAndQuestions(AfterHomework(fullText, h)))
  {
    if fullText == [] then
      Sections("", "", "", "")
    else
      var h := Find(fullText, HomeworkMarker);
      if h == -1 then
        Sections(Strip(fullText), "", "", "")
      else
        var articleText := Strip(fullText[..h]);
        var afterHomework := AfterHomework(fullText, h);
        if level == 6 then ParseLevel6Content(articleText, afterHomework)
        else ParseLevel1And3Content(articleText, afterHomework)
  }

  /** The marker itself is in neither the article text nor the homework block. */
  lemma HomeworkMarkerExcluded(fullText: string, h: nat)
    requires FirstOccurrence(fullText, HomeworkMarker, h)
    ensures !Occurs(fullText[..h], HomeworkMarker)
    ensures !Occurs(Strip(fullText[..h]), HomeworkMarker)
    ensures fullText == fullText[..h] + HomeworkMarker + fullText[h + |HomeworkMarker|..]
  {
    var a := fullText[..h];
    if Occurs(a, HomeworkMarker) {
      var k: nat :| k <= |a| && OccursAt(a, HomeworkMarker, k);
      assert a[k..k + |HomeworkMarker|] == fullText[k..k + |HomeworkMarker|];
      assert OccursAt(fullText, HomeworkMarker, k);
    }
    var i, j := StripIsSlice(a);
    NoOccurrenceInSlice(a, HomeworkMarker, i, j);
  }

  /** A pattern absent from a text is absent from every slice of it. */
  lemma NoOccurrenceInSlice(a: string, pat: string, i: nat, j: nat)
    requires i <= j <= |a| && !Occurs(a, pat)
    ensures !Occurs(a[i..j], pat)
  {
    if Occurs(a[i..j], pat) {
      var k: nat :| k <= |a[i..j]| && OccursAt(a[i..j], pat, k);
      assert forall m :: 0 <= m < |pat| ==> a[i + k + m] == a[i..j][k + m] == pat[m];
      assert a[i + k..i + k + |pat|] == pat;
      assert OccursAt(a, pat, i + k);
    }
  }

  // ---------------------------------------------------------------------------
  // parse_article_content
  // ---------------------------------------------------------------------------

  /** `re.match(r'^\d+\.', s)` */
  predicate NumberedLine(s: string) {
    0 < DigitRun(s) < |s| && s[DigitRun(s)] == '.'
  }

  /** A line that opens a question once stripped. */
  predicate QuestionLine(line: string) {
    NumberedLine(Strip(line))
  }

  /** The first line, from index `i` on, that is numbered once stripped. */
  function FirstNumbered(lines: seq<string>, i: nat): (r: Option<nat>)
    requires i <= |lines|
    ensures r.None? ==> forall k :: i <= k < |lines| ==> !QuestionLine(lines[k])
    ensures r.Some? ==> i <= r.value < |lines| && QuestionLine(lines[r.value])
    ensures r.Some? ==> forall k :: i <= k < r.value ==> !QuestionLine(lines[k])
  {
    FirstWhere(lines, QuestionLine, i)
  }

  /** Python's `lines[1:q]`, which is empty when `q` is 0. */
  function Between(lines: seq<string>, q: nat): seq<string>
    requires q <= |lines|
  {
    if q <= 1 then [] else lines[1..q]
  }

  /**
   The body of `parse_article_content` once the text is split into lines: the
   first line is the headline, the first numbered line opens the questions.
   */
  function SplitArticle(lines: seq<string>): (r: ArticleParts)
    requires |lines| >= 1
    ensures r.headline == Strip(lines[0])
    ensures (forall k :: 0 <= k < |lines| ==> !QuestionLine(lines[k])) ==>
              r.body == Join(lines[1..]) && r.questions == ""
    ensures forall q :: FirstSatisfying(lines, QuestionLine, q) ==>
              && r.body == Strip(Join(Between(lines, q)))
              && r.questions == Strip(Join(lines[q..]))
    ensures r.questions == "" || NumberedLine(r.questions)
  {
    var headline := Strip(lines[0]);
    match FirstNumbered(lines, 0)
    case None => ArticleParts(headline, Join(lines[1..]), "")
    case Some(q) =>
      QuestionsStayNumbered(lines[q..]);
      assert forall q' :: FirstSatisfying(lines, QuestionLine, q') ==> q' == q by {
        forall q' | FirstSatisfying(lines, QuestionLine, q') {
          FirstWhereFinds(lines, QuestionLine, q');
        }
      }
      ArticleParts(headline, Strip(Join(Between(lines, q))), Strip(Join(lines[q..])))
  }

  /** Python's `parse_article_content`. */
  function ParseArticleContent(text: string): (r: ArticleParts)
    ensures r.headline == Headline(text)
    ensures (forall k :: 0 <= k < |Lines(text)| ==> !QuestionLine(Lines(text)[k])) ==> r.questions == ""
    ensures r.questions == "" || NumberedLine(r.questions)
  {
    SplitArticle(Lines(text))
  }

  /** A join whose first line is numbered is numbered once stripped. */
  lemma QuestionsStayNumbered(ls: seq<string>)
    requires |ls| >= 1 && QuestionLine(ls[0])
    ensures QuestionLine(Join(ls))
  {
    NumberedPrefixSurvives(ls[0], Join(ls));
  }

  /** A string that opens with a line numbered once stripped is numbered once stripped. */
  lemma NumberedPrefixSurvives(a: string, s: string)
    requires |a| <= |s| && s[..|a|] == a
    requires QuestionLine(a)
    ensures QuestionLine(s)
  {
    var pa := Strip(a);
    var pre := pa[..DigitRun(pa) + 1];
    NumberedPrefixTrimmed(pa);
    StripPrefixTransfer(a, s, pre);
    NumberedByPrefix(pa, Strip(s));
  }

  /** The `\d+.` that opens a numbered line has no whitespace at either end. */
  lemma NumberedPrefixTrimmed(s: string)
    requires NumberedLine(s)
    ensures Trimmed(s[..DigitRun(s) + 1])
  {
  }

  /** Being numbered depends only on the `\d+.` prefix. */
  lemma NumberedByPrefix(s: string, t: string)
    requires NumberedLine(s)
    requires DigitRun(s) + 1 <= |t| && t[..DigitRun(s) + 1] == s[..DigitRun(s) + 1]
    ensures NumberedLine(t)
  {
    var d := DigitRun(s);
    assert t[..d] == s[..d];
    assert t[d] == s[..d + 1][d];
    DigitRunExact(t, d);
  }

  /** The per-file headline `main` stores: the first line of the text, stripped. */
  function Headline(text: string): (h: string)
    ensures Trimmed(h) && '\n' !in h
  {
    Strip(Lines(text)[0])
  }

  /** The headline is the text up to its first newline, stripped, whatever follows. */
  lemma HeadlineIsFirstLine(text: string)
    ensures Find(text, "\n") == -1 ==> Headline(text) == Strip(text)
    ensures Find(text, "\n") >= 0 ==> Headline(text) == Strip(text[..Find(text, "\n")])
  {
    FirstLineIsPrefix(text);
  }

  /** The first piece of the split is everything before the first newline. */
  lemma FirstLineIsPrefix(text: string)
    ensures Find(text, "\n") == -1 ==> Lines(text)[0] == text
    ensures Find(text, "\n") >= 0 ==> Lines(text)[0] == text[..Find(text, "\n")]
  {
    var f := Lines(text)[0];
    FirstLinePrefix(text);
    var n := Find(text, "\n");
    if |f| < |text| {
      assert text[|f|..|f| + 1] == "\n";
      assert OccursAt(text, "\n", |f|);
      assert forall k: nat :: k < |f| ==> !OccursAt(text, "\n", k) by {
        forall k: nat | k < |f| ensures !OccursAt(text, "\n", k) {
          assert text[k] == f[k];
          assert f[k] in f;
        }
      }
      assert n == |f|;
    } else {
      assert f == text;
      forall k: nat | k <= |text| ensures !OccursAt(text, "\n", k) {
        if k < |text| {
          assert text[k] == f[k] && f[k] in f;
        }
      }
      assert n == -1;
    }
  }

  /** Homework content after the first line never changes the headline. */
  lemma HeadlineIgnoresRest(first: string, rest: string)
    requires '\n' !in first
    ensures Headline(first + "\n" + rest) == Strip(first)
  {
    LinesCons(first, rest);
  }
}
